/**
 * The string operations the scripts rely on, with Python's meaning.
 * Character classes are those of ASCII: Python's Unicode `isspace`, `isalnum`
 * and `int()` accept more characters than these definitions do.
 */
module Text {
  import opened Wrappers

  /** `c.isspace()` for ASCII: tab, line feed, vertical tab, form feed,
      carriage return, the separators 0x1C to 0x1F, and space. */
  predicate IsSpace(c: char) {
    c == ' ' || 9 <= c as int <= 13 || 28 <= c as int <= 31
  }

  predicate IsDigit(c: char) {
    '0' <= c <= '9'
  }

  /** `c.isalnum()` for ASCII: a letter or a decimal digit. */
  predicate IsAlnum(c: char) {
    IsDigit(c) || 'a' <= c <= 'z' || 'A' <= c <= 'Z'
  }

  predicate AllDigits(s: string) {
    forall k :: 0 <= k < |s| ==> IsDigit(s[k])
  }

  /** `s.lstrip()`: `s` after dropping its leading whitespace; it is `s`
      itself when `s` does not start with whitespace. */
  function TrimStart(s: string): (r: string)
    ensures |r| <= |s|
    ensures forall k :: 0 <= k < |s| - |r| ==> IsSpace(s[k])
    ensures r == [] || !IsSpace(r[0])
    ensures (s == [] || !IsSpace(s[0])) ==> r == s
    ensures forall c :: c in r ==> c in s
  {
    if |s| > 0 && IsSpace(s[0]) then
      var r := TrimStart(s[1..]);
      assert forall c :: c in r ==> c in s by {
        forall c | c in r ensures c in s {
          assert c in s[1..];
        }
      }
      r
    else s
  }

  /** What `s.lstrip()` keeps is a suffix of `s`. */
  lemma {:induction false} TrimStartIsSuffix(s: string)
    ensures TrimStart(s) == s[|s| - |TrimStart(s)|..]
  {
    if |s| > 0 && IsSpace(s[0]) {
      TrimStartIsSuffix(s[1..]);
      assert s[1..][|s| - 1 - |TrimStart(s)|..] == s[|s| - |TrimStart(s)|..];
    }
  }

  /** `s.rstrip()`: the prefix of `s` left after dropping trailing whitespace. */
  function TrimEnd(s: string): (r: string)
    ensures |r| <= |s| && r == s[..|r|]
    ensures forall k :: |r| <= k < |s| ==> IsSpace(s[k])
    ensures r == [] || !IsSpace(r[|r| - 1])
  {
    if |s| > 0 && IsSpace(s[|s| - 1]) then TrimEnd(s[..|s| - 1]) else s
  }

  /** `s.strip()`: a slice of `s` with no whitespace at either end; it is
      empty exactly when `s` is all whitespace, and it is `s` itself when
      `s` has none at its ends. */
  function Strip(s: string): (r: string)
    ensures r == [] || (!IsSpace(r[0]) && !IsSpace(r[|r| - 1]))
    ensures r == [] <==> forall k :: 0 <= k < |s| ==> IsSpace(s[k])
    ensures (s == [] || (!IsSpace(s[0]) && !IsSpace(s[|s| - 1]))) ==> r == s
    ensures forall c :: c in r ==> c in s
  {
    var t := TrimStart(s);
    var r := TrimEnd(t);
    assert r == [] ==> t == [];
    assert (forall k :: 0 <= k < |s| ==> IsSpace(s[k])) ==> t == [] by {
      if t != [] {
        assert t[0] in s;
      }
    }
    assert forall c :: c in r ==> c in t by {
      forall c | c in r ensures c in t {
        var i :| 0 <= i < |r| && r[i] == c;
        assert t[i] == c;
      }
    }
    r
  }

  /** What `s.strip()` gives is the slice of `s` between its leading and its
      trailing whitespace; with the ends `Strip` guarantees, this fixes its value. */
  lemma StripIsSlice(s: string)
    ensures exists i, j ::
              0 <= i <= j <= |s| && Strip(s) == s[i..j] &&
              (forall k :: 0 <= k < i ==> IsSpace(s[k])) &&
              (forall k :: j <= k < |s| ==> IsSpace(s[k]))
  {
    var t := TrimStart(s);
    TrimStartIsSuffix(s);
    var r := Strip(s);
    assert r == TrimEnd(t);
    var i := |s| - |t|;
    var j := i + |r|;
    assert r == t[..|r|] == s[i..j];
    forall k | j <= k < |s|
      ensures IsSpace(s[k])
    {
      assert s[k] == t[k - i];
    }
  }

  /** `s.replace(a, b)` for one-character `a` and `b`: every `a` becomes `b`
      and every other character stays where it was. */
  function ReplaceChar(s: string, a: char, b: char): (r: string)
    ensures |r| == |s|
    ensures forall k :: 0 <= k < |s| ==> r[k] == if s[k] == a then b else s[k]
    ensures a != b ==> a !in r
  {
    if s == [] then []
    else ReplaceChar(s[..|s| - 1], a, b) + [if s[|s| - 1] == a then b else s[|s| - 1]]
  }

  /** `"".join(c for c in s if p(c))`: the characters of `s` that satisfy `p`,
      in their order, each as often as in `s`. */
  function Keep(s: string, p: char -> bool): (r: string)
    ensures |r| <= |s|
    ensures forall k :: 0 <= k < |r| ==> p(r[k])
  {
    if s == [] then []
    else
      var init, last := s[..|s| - 1], s[|s| - 1];
      assert s == init + [last];
      Keep(init, p) + (if p(last) then [last] else [])
  }

  /** Keeping distributes over concatenation, so the kept characters keep their order. */
  lemma {:induction false} KeepAppend(a: string, b: string, p: char -> bool)
    ensures Keep(a + b, p) == Keep(a, p) + Keep(b, p)
  {
    if b != [] {
      var init, last := b[..|b| - 1], b[|b| - 1];
      var tail := if p(last) then [last] else [];
      assert (a + b)[..|a + b| - 1] == a + init;
      assert Keep(a + b, p) == Keep(a + init, p) + tail;
      assert Keep(b, p) == Keep(init, p) + tail;
      KeepAppend(a, init, p);
    } else {
      assert a + b == a;
    }
  }

  /** Each character that qualifies is kept as often as it occurs; the others not at all. */
  lemma {:induction false} KeepCounts(s: string, p: char -> bool, c: char)
    ensures multiset(Keep(s, p))[c] == if p(c) then multiset(s)[c] else 0
  {
    if s != [] {
      var init, last := s[..|s| - 1], s[|s| - 1];
      assert s == init + [last];
      assert multiset(s) == multiset(init) + multiset{last};
      KeepCounts(init, p, c);
    }
  }

  /** A string is left unchanged by keeping exactly when all its characters qualify. */
  lemma {:induction false} KeepIdentity(s: string, p: char -> bool)
    ensures Keep(s, p) == s <==> forall k :: 0 <= k < |s| ==> p(s[k])
  {
    if s != [] {
      KeepIdentity(s[..|s| - 1], p);
      if Keep(s, p) == s {
        forall k | 0 <= k < |s| ensures p(s[k]) { assert p(Keep(s, p)[k]); }
      }
    }
  }

  /** `s.replace(c, "")`: `s` with every `c` dropped. */
  function RemoveChar(s: string, c: char): (r: string)
    ensures c !in r
    ensures |r| <= |s|
  {
    Keep(s, x => x != c)
  }

  /** Removing a character distributes over concatenation, so every other
      character is kept, in order. */
  lemma RemoveCharAppend(a: string, b: string, c: char)
    ensures RemoveChar(a + b, c) == RemoveChar(a, c) + RemoveChar(b, c)
  {
    KeepAppend(a, b, x => x != c);
  }

  /** On a single character, `replace(c, "")` drops exactly `c`. */
  lemma RemoveCharSingle(x: char, c: char)
    ensures RemoveChar([x], c) == if x == c then [] else [x]
  {
    assert [x][..0] == [];
  }

  /** A character other than `c` is kept as often as it occurs. */
  lemma RemoveCharCounts(s: string, c: char, x: char)
    ensures multiset(RemoveChar(s, c))[x] == if x == c then 0 else multiset(s)[x]
  {
    KeepCounts(s, y => y != c, x);
  }

  /** `replace(c, "")` leaves a text unchanged exactly when `c` does not occur in it. */
  lemma RemoveCharIdentity(s: string, c: char)
    ensures RemoveChar(s, c) == s <==> c !in s
  {
    KeepIdentity(s, x => x != c);
  }

  /** `sub` occurs in `s` starting at index `i`. */
  predicate OccursAt(s: string, sub: string, i: int) {
    0 <= i <= |s| - |sub| && s[i..i + |sub|] == sub
  }

  /** `sub in s`. */
  predicate Contains(s: string, sub: string) {
    exists i | 0 <= i <= |s| :: OccursAt(s, sub, i)
  }

  /** `s.endswith(suffix)`. */
  predicate EndsWith(s: string, suffix: string) {
    |suffix| <= |s| && s[|s| - |suffix|..] == suffix
  }

  /** `s.split(c)[-1]`: the longest suffix of `s` without `c`, which is
      all of `s` when `c` does not occur and otherwise starts right after the last `c`. */
  function AfterLast(s: string, c: char): (r: string)
    ensures c !in r
    ensures |r| <= |s|
    ensures |r| < |s| ==> s[|s| - |r| - 1] == c
    ensures c !in s ==> r == s
  {
    if s == [] then []
    else if s[|s| - 1] == c then []
    else
      var init := s[..|s| - 1];
      assert s == init + [s[|s| - 1]];
      AfterLast(init, c) + [s[|s| - 1]]
  }

  /** What `s.split(c)[-1]` gives is a suffix of `s`. */
  lemma {:induction false} AfterLastIsSuffix(s: string, c: char)
    ensures AfterLast(s, c) == s[|s| - |AfterLast(s, c)|..]
  {
    if s != [] && s[|s| - 1] != c {
      var init := s[..|s| - 1];
      AfterLastIsSuffix(init, c);
      assert s == init + [s[|s| - 1]];
    }
  }

  /** `s.split(c)[0]`: the longest prefix of `s` without `c`, which is
      all of `s` when `c` does not occur and otherwise stops right before the first `c`. */
  function BeforeFirst(s: string, c: char): (r: string)
    ensures c !in r
    ensures |r| <= |s| && r == s[..|r|]
    ensures |r| < |s| ==> s[|r|] == c
  {
    if s == [] then []
    else if s[0] == c then []
    else [s[0]] + BeforeFirst(s[1..], c)
  }

  function DigitValue(c: char): nat
    requires IsDigit(c)
  {
    c as int - '0' as int
  }

  function DigitChar(d: nat): (c: char)
    requires d < 10
    ensures IsDigit(c) && DigitValue(c) == d
  {
    ('0' as int + d) as char
  }

  /** The value of a string of decimal digits, most significant first. */
  function DigitsValue(ds: string): nat
    requires AllDigits(ds)
  {
    if ds == [] then 0 else DigitsValue(ds[..|ds| - 1]) * 10 + DigitValue(ds[|ds| - 1])
  }

  /**
   * Python's `int(s)` on a string: surrounding whitespace is ignored, one
   * optional sign, then one or more decimal digits; anything else is the
   * ValueError, here None. (Digit-group underscores and non-ASCII digits,
   * which Python also accepts, are not modelled.)
   */
  function ParseInt(s: string): Option<int> {
    var t := Strip(s);
    if |t| > 0 && (t[0] == '-' || t[0] == '+') then
      var digits := t[1..];
      if |digits| > 0 && AllDigits(digits) then
        var v: int := DigitsValue(digits);
        Some(if t[0] == '-' then -v else v)
      else None
    else if |t| > 0 && AllDigits(t) then Some(DigitsValue(t))
    else None
  }

  /** The decimal digits of `n` without leading zeros. */
  function NatToString(n: nat): (r: string)
    ensures |r| > 0 && AllDigits(r) && DigitsValue(r) == n
    ensures r[0] == '0' ==> n == 0
  {
    if n < 10 then [DigitChar(n)]
    else
      var r := NatToString(n / 10) + [DigitChar(n % 10)];
      assert r[..|r| - 1] == NatToString(n / 10);
      r
  }

  /** `int()` reads a digit string as the value it denotes. */
  lemma ParseDigits(d: string)
    requires |d| > 0 && AllDigits(d)
    ensures ParseInt(d) == Some(DigitsValue(d) as int)
  {
    assert !IsSpace(d[0]) && !IsSpace(d[|d| - 1]);
    assert Strip(d) == d;
    assert d[0] != '-' && d[0] != '+';
  }

  /** `int()` reads a minus sign followed by digits as the negated value. */
  lemma ParseNegativeDigits(d: string)
    requires |d| > 0 && AllDigits(d)
    ensures ParseInt("-" + d) == Some(-(DigitsValue(d) as int))
  {
    var m := "-" + d;
    assert !IsSpace(m[0]) && m[|m| - 1] == d[|d| - 1];
    assert Strip(m) == m;
    assert m[1..] == d;
  }

  /** `str(n)` for an integer: digits, with a leading `-` when negative. */
  function IntToString(n: int): (r: string)
    ensures |r| > 0
    ensures forall k :: 0 <= k < |r| ==> IsDigit(r[k]) || r[k] == '-'
  {
    if n < 0 then "-" + NatToString(-n) else NatToString(n)
  }

  /** `int(str(n)) == n`. */
  lemma IntToStringRoundTrip(n: int)
    ensures ParseInt(IntToString(n)) == Some(n)
  {
    if n < 0 {
      ParseNegativeDigits(NatToString(-n));
    } else {
      ParseDigits(NatToString(n));
    }
  }
}
