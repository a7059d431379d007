/**
 * String operations with the semantics of the Python built-ins the modelled
 * code calls (`in`, `str.replace`, `str.strip`, `str.split`, `str.rsplit`,
 * `str.endswith`, zero-padded integer formatting).
 */
module Text {

  /** `pat` occurs in `s` starting at index `i`. */
  predicate OccursAt(s: string, pat: string, i: int) {
    0 <= i && i + |pat| <= |s| && s[i..i + |pat|] == pat
  }

  /** Python's `sub in s`. */
  predicate Contains(s: string, sub: string)
    decreases |s|
  {
    |sub| <= |s| && (s[..|sub|] == sub || Contains(s[1..], sub))
  }

  lemma ContainsIffOccurs(s: string, sub: string)
    ensures Contains(s, sub) <==> exists i :: OccursAt(s, sub, i)
    decreases |s|
  {
    if |sub| <= |s| && s[..|sub|] != sub {
      ContainsIffOccurs(s[1..], sub);
      if exists i :: OccursAt(s, sub, i) {
        var i :| OccursAt(s, sub, i);
        assert i != 0;
        assert s[1..][i - 1..i - 1 + |sub|] == s[i..i + |sub|];
        assert OccursAt(s[1..], sub, i - 1);
      }
      if exists i :: OccursAt(s[1..], sub, i) {
        var i :| OccursAt(s[1..], sub, i);
        assert s[1..][i..i + |sub|] == s[i + 1..i + 1 + |sub|];
        assert OccursAt(s, sub, i + 1);
      }
    } else if |sub| <= |s| {
      assert OccursAt(s, sub, 0);
    }
  }

  /** A string that holds `sub` at some index contains it. */
  lemma ContainsAt(s: string, sub: string, i: int)
    requires OccursAt(s, sub, i)
    ensures Contains(s, sub)
  {
    ContainsIffOccurs(s, sub);
  }

  /** Python's `s.startswith(p)`. */
  predicate StartsWith(s: string, p: string) {
    |p| <= |s| && s[..|p|] == p
  }

  /** Python's `s.endswith(suffix)`. */
  predicate EndsWith(s: string, suffix: string) {
    |suffix| <= |s| && s[|s| - |suffix|..] == suffix
  }

  /**
   * Python's `s.replace(pat, rep)` for a non-empty `pat`: scanning from the
   * left, every occurrence that does not overlap an earlier replaced one is
   * replaced; the text produced by a replacement is not scanned again.
   */
  function ReplaceAll(s: string, pat: string, rep: string): string
    requires pat != []
    decreases |s|
  {
    if |s| < |pat| then s
    else if s[..|pat|] == pat then rep + ReplaceAll(s[|pat|..], pat, rep)
    else [s[0]] + ReplaceAll(s[1..], pat, rep)
  }

  /** A replacement whose pattern does not occur changes nothing. */
  lemma {:induction false} ReplaceAbsent(s: string, pat: string, rep: string)
    requires pat != []
    requires !Contains(s, pat)
    ensures ReplaceAll(s, pat, rep) == s
    decreases |s|
  {
    if |s| >= |pat| {
      assert s[..|pat|] != pat;
      ReplaceAbsent(s[1..], pat, rep);
    }
  }

  /** Replacing by a string of the same length keeps the length. */
  lemma {:induction false} ReplaceKeepsLength(s: string, pat: string, rep: string)
    requires pat != [] && |rep| == |pat|
    ensures |ReplaceAll(s, pat, rep)| == |s|
    decreases |s|
  {
    if |s| >= |pat| {
      if s[..|pat|] == pat {
        ReplaceKeepsLength(s[|pat|..], pat, rep);
      } else {
        ReplaceKeepsLength(s[1..], pat, rep);
      }
    }
  }

  /** The character-by-character substitution of `a` by `b`. */
  function MapChar(s: string, a: char, b: char): (r: string)
    ensures |r| == |s|
    ensures forall i :: 0 <= i < |s| ==> r[i] == if s[i] == a then b else s[i]
  {
    seq(|s|, i requires 0 <= i < |s| => if s[i] == a then b else s[i])
  }

  /** Replacing a one-character pattern is a character-by-character substitution. */
  lemma {:induction false} ReplaceOneChar(s: string, a: char, b: char)
    ensures ReplaceAll(s, [a], [b]) == MapChar(s, a, b)
    decreases |s|
  {
    if |s| >= 1 {
      ReplaceOneChar(s[1..], a, b);
      if s[..1] == [a] {
        assert s[0] == a;
      } else {
        assert s[0] != a;
      }
    }
  }

  /** The conditions on `rep` under which a replacement cannot create an occurrence of `pat`. */
  predicate Unmatchable(pat: string, rep: string) {
    |pat| >= 1 && |rep| >= 1 && rep[|rep| - 1] !in pat &&
    forall q :: 0 <= q < |rep| - 1 ==> rep[q] != pat[|pat| - 1]
  }

  /** Under `Unmatchable`, no non-empty prefix of a string starting with `rep` is a suffix of `pat`. */
  lemma RepPrefixIsNoSuffix(pat: string, rep: string, r: string, j: nat)
    requires Unmatchable(pat, rep)
    requires |rep| <= |r| && r[..|rep|] == rep
    requires 1 <= j <= |pat| && j <= |r|
    ensures r[..j] != pat[|pat| - j..]
  {
    if j >= |rep| {
      assert r[..j][|rep| - 1] == rep[|rep| - 1];
      assert pat[|pat| - j..][|rep| - 1] in pat;
    } else {
      assert r[..j][j - 1] == rep[j - 1];
      assert pat[|pat| - j..][j - 1] == pat[|pat| - 1];
    }
  }

  /**
   * The first `j` characters of `ReplaceAll(t, pat, rep)` agree with those of
   * `t` when they spell a suffix of `pat`.
   */
  lemma {:induction false} ReplacePrefixAgrees(t: string, pat: string, rep: string, j: nat)
    requires Unmatchable(pat, rep)
    requires 1 <= j <= |pat|
    requires j <= |ReplaceAll(t, pat, rep)|
    requires ReplaceAll(t, pat, rep)[..j] == pat[|pat| - j..]
    ensures j <= |t| && t[..j] == pat[|pat| - j..]
    decreases |t|
  {
    var r := ReplaceAll(t, pat, rep);
    if |t| < |pat| {
    } else if t[..|pat|] == pat {
      RepPrefixIsNoSuffix(pat, rep, r, j);
    } else {
      var r' := ReplaceAll(t[1..], pat, rep);
      assert r == [t[0]] + r';
      if j > 1 {
        assert r'[..j - 1] == r[1..j];
        assert r[1..j] == pat[|pat| - (j - 1)..];
        ReplacePrefixAgrees(t[1..], pat, rep, j - 1);
        assert t[..j] == [t[0]] + t[1..][..j - 1];
      }
    }
  }

  lemma NoOccurrenceAfterRep(pat: string, rep: string, r': string, i: int)
    requires Unmatchable(pat, rep)
    requires forall k :: !OccursAt(r', pat, k)
    ensures !OccursAt(rep + r', pat, i)
  {
    var r := rep + r';
    if 0 <= i && i + |pat| <= |r| {
      if i >= |rep| {
        assert r'[i - |rep|..i - |rep| + |pat|] == r[i..i + |pat|];
        assert !OccursAt(r', pat, i - |rep|);
      } else if i + |pat| > |rep| - 1 {
        var k := |rep| - 1 - i;
        assert r[i..i + |pat|][k] == rep[|rep| - 1];
        assert pat[k] in pat;
      } else {
        assert r[i..i + |pat|][|pat| - 1] == rep[i + |pat| - 1];
      }
    }
  }

  lemma NoOccurrenceAfterChar(s: string, pat: string, rep: string, i: int)
    requires Unmatchable(pat, rep)
    requires |s| >= |pat| && s[..|pat|] != pat
    requires forall k :: !OccursAt(ReplaceAll(s[1..], pat, rep), pat, k)
    ensures !OccursAt([s[0]] + ReplaceAll(s[1..], pat, rep), pat, i)
  {
    var r' := ReplaceAll(s[1..], pat, rep);
    var r := [s[0]] + r';
    if 1 <= i && i + |pat| <= |r| {
      assert r'[i - 1..i - 1 + |pat|] == r[i..i + |pat|];
      assert !OccursAt(r', pat, i - 1);
    } else if i == 0 {
      NoOccurrenceAtStart(s, pat, rep);
    }
  }

  /** The first character kept in front of the rewritten rest does not start an occurrence. */
  lemma NoOccurrenceAtStart(s: string, pat: string, rep: string)
    requires Unmatchable(pat, rep)
    requires |s| >= |pat| && s[..|pat|] != pat
    ensures !OccursAt([s[0]] + ReplaceAll(s[1..], pat, rep), pat, 0)
  {
    var r' := ReplaceAll(s[1..], pat, rep);
    var r := [s[0]] + r';
    if |pat| <= |r| {
      var head := r'[..|pat| - 1];
      assert r[..|pat|] == [s[0]] + head;
      assert ([s[0]] + head)[1..] == head;
      assert s[..|pat|] == [s[0]] + s[1..][..|pat| - 1];
      if head == pat[1..] && |pat| >= 2 {
        assert pat[1..] == pat[|pat| - (|pat| - 1)..];
        ReplacePrefixAgrees(s[1..], pat, rep, |pat| - 1);
      }
    }
  }

  /**
   * Under `Unmatchable(pat, rep)` no occurrence of `pat` survives
   * `ReplaceAll(s, pat, rep)`: a replacement cannot create a new occurrence.
   */
  lemma {:induction false} ReplaceLeavesNoOccurrence(s: string, pat: string, rep: string)
    requires Unmatchable(pat, rep)
    ensures forall i :: !OccursAt(ReplaceAll(s, pat, rep), pat, i)
    decreases |s|
  {
    if |s| < |pat| {
    } else if s[..|pat|] == pat {
      ReplaceLeavesNoOccurrence(s[|pat|..], pat, rep);
      forall i {
        NoOccurrenceAfterRep(pat, rep, ReplaceAll(s[|pat|..], pat, rep), i);
      }
    } else {
      ReplaceLeavesNoOccurrence(s[1..], pat, rep);
      forall i {
        NoOccurrenceAfterChar(s, pat, rep, i);
      }
    }
  }

  /** The characters Python's `str.strip()` removes (`str.isspace`). */
  predicate IsSpace(c: char) {
    c in {'\U{0009}', '\U{000A}', '\U{000B}', '\U{000C}', '\U{000D}', '\U{001C}', '\U{001D}', '\U{001E}',
          '\U{001F}', '\U{0020}', '\U{0085}', '\U{00A0}', '\U{1680}', '\U{2000}', '\U{2001}', '\U{2002}',
          '\U{2003}', '\U{2004}', '\U{2005}', '\U{2006}', '\U{2007}', '\U{2008}', '\U{2009}', '\U{200A}',
          '\U{2028}', '\U{2029}', '\U{202F}', '\U{205F}', '\U{3000}'}
  }

  function StripLeft(s: string): (r: string)
    ensures r == [] || !IsSpace(r[0])
    ensures |r| <= |s| && r == s[|s| - |r|..]
    decreases |s|
  {
    if s != [] && IsSpace(s[0]) then StripLeft(s[1..]) else s
  }

  function StripRight(s: string): (r: string)
    ensures r == [] || !IsSpace(r[|r| - 1])
    ensures |r| <= |s| && r == s[..|r|]
    decreases |s|
  {
    if s != [] && IsSpace(s[|s| - 1]) then StripRight(s[..|s| - 1]) else s
  }

  /** Python's `s.strip()`. */
  function Strip(s: string): (r: string)
    ensures r == [] || (!IsSpace(r[0]) && !IsSpace(r[|r| - 1]))
  {
    StripRight(StripLeft(s))
  }

  /** The index of the first `c` in `s`, or -1. */
  function IndexOf(s: string, c: char): (i: int)
    ensures -1 <= i < |s|
    ensures i >= 0 ==> s[i] == c
    ensures forall j :: 0 <= j < |s| && (i < 0 || j < i) ==> s[j] != c
    decreases |s|
  {
    if s == [] then -1
    else if s[0] == c then 0
    else var k := IndexOf(s[1..], c); if k < 0 then -1 else k + 1
  }

  /** The index of the last `c` in `s`, or -1. */
  function LastIndexOf(s: string, c: char): (i: int)
    ensures -1 <= i < |s|
    ensures i >= 0 ==> s[i] == c
    ensures forall j :: i < j < |s| ==> s[j] != c
    decreases |s|
  {
    if s == [] then -1
    else if s[|s| - 1] == c then |s| - 1
    else LastIndexOf(s[..|s| - 1], c)
  }

  /** Python's `s.rsplit(c, 1)[0]`: everything before the last `c`, or all of `s`. */
  function BeforeLast(s: string, c: char): string {
    var i := LastIndexOf(s, c);
    if i < 0 then s else s[..i]
  }

  /** Python's `s.split(c)` for a one-character separator. */
  function Split(s: string, c: char): (parts: seq<string>)
    ensures |parts| >= 1
    ensures forall k :: 0 <= k < |parts| ==> c !in parts[k]
    decreases |s|
  {
    var i := IndexOf(s, c);
    if i < 0 then [s]
    else
      var head, rest := s[..i], Split(s[i + 1..], c);
      assert c !in head by {
        assert forall j :: 0 <= j < |head| ==> head[j] == s[j];
      }
      assert forall k :: 1 <= k <= |rest| ==> ([head] + rest)[k] == rest[k - 1];
      [head] + rest
  }

  /** Python's `sep.join(parts)`. */
  function Join(parts: seq<string>, sep: string): string
    decreases |parts|
  {
    if parts == [] then ""
    else if |parts| == 1 then parts[0]
    else parts[0] + sep + Join(parts[1..], sep)
  }

  /** Splitting and joining with the same separator gives the string back. */
  lemma {:induction false} JoinSplit(s: string, c: char)
    ensures Join(Split(s, c), [c]) == s
    decreases |s|
  {
    var i := IndexOf(s, c);
    if i >= 0 {
      JoinSplitStep(s, c, i);
      JoinSplit(s[i + 1..], c);
      SplitAround(s, i);
    }
  }

  lemma JoinSplitStep(s: string, c: char, i: int)
    requires i == IndexOf(s, c) && i >= 0
    ensures Join(Split(s, c), [c]) == s[..i] + [c] + Join(Split(s[i + 1..], c), [c])
  {
    var parts, rest := Split(s, c), Split(s[i + 1..], c);
    assert parts[0] == s[..i] && parts[1..] == rest;
  }

  lemma SplitAround(s: string, i: int)
    requires 0 <= i < |s|
    ensures s == s[..i] + [s[i]] + s[i + 1..]
  {
  }

  /** Joining parts that hold no separator and splitting again gives the parts back. */
  lemma {:induction false} SplitJoin(parts: seq<string>, c: char)
    requires |parts| >= 1
    requires forall k :: 0 <= k < |parts| ==> c !in parts[k]
    ensures Split(Join(parts, [c]), c) == parts
    decreases |parts|
  {
    if |parts| > 1 {
      var rest := Join(parts[1..], [c]);
      assert Join(parts, [c]) == parts[0] + [c] + rest;
      SplitAtFirst(parts[0], c, rest);
      SplitJoin(parts[1..], c);
      assert parts == [parts[0]] + parts[1..];
    } else {
      assert IndexOf(parts[0], c) < 0;
    }
  }

  lemma SplitAtFirst(a: string, c: char, rest: string)
    requires c !in a
    ensures Split(a + [c] + rest, c) == [a] + Split(rest, c)
  {
    var s := a + [c] + rest;
    assert s[|a|] == c;
    assert forall j :: 0 <= j < |a| ==> s[j] == a[j];
    assert IndexOf(s, c) == |a|;
    assert s[..|a|] == a && s[|a| + 1..] == rest;
  }

  /** An occurrence in `s[1..]` is one in `s`, one place further right. */
  lemma OccursInTail(s: string, pat: string, i: int)
    requires |s| >= 1
    ensures OccursAt(s[1..], pat, i) <==> i >= 0 && OccursAt(s, pat, i + 1)
  {
    if 0 <= i && i + |pat| <= |s| - 1 {
      assert s[1..][i..i + |pat|] == s[i + 1..i + 1 + |pat|];
    }
  }

  /** The scan replaces the first occurrence of `pat` and resumes after it. */
  lemma ReplaceAtFirst(s: string, pat: string, rep: string, j: nat)
    requires pat != [] && OccursAt(s, pat, j)
    requires forall i :: 0 <= i < j ==> !OccursAt(s, pat, i)
    ensures ReplaceAll(s, pat, rep) == s[..j] + rep + ReplaceAll(s[j + |pat|..], pat, rep)
  {
    ReplaceSkipsPrefix(s, pat, rep, j);
    var t := s[j..];
    assert t[..|pat|] == s[j..j + |pat|];
    ReplaceAtStart(t, pat, rep);
    assert t[|pat|..] == s[j + |pat|..];
    ConcatAssoc(s[..j], rep, ReplaceAll(s[j + |pat|..], pat, rep));
  }

  lemma ConcatAssoc(a: string, b: string, c: string)
    ensures a + (b + c) == a + b + c
  {
  }

  /** Up to the first occurrence, the scan copies the text unchanged. */
  lemma {:induction false} ReplaceSkipsPrefix(s: string, pat: string, rep: string, k: nat)
    requires pat != [] && k <= |s|
    requires forall i :: 0 <= i < k ==> !OccursAt(s, pat, i)
    ensures ReplaceAll(s, pat, rep) == s[..k] + ReplaceAll(s[k..], pat, rep)
    decreases k
  {
    if k == 0 {
      assert s[..0] == [] && s[0..] == s;
    } else {
      ReplaceSkipsPrefix(s, pat, rep, k - 1);
      ReplaceKeepsChar(s, pat, rep, k - 1);
      assert s[..k] == s[..k - 1] + [s[k - 1]];
      ConcatAssoc(s[..k - 1], [s[k - 1]], ReplaceAll(s[k..], pat, rep));
    }
  }

  /** Where no occurrence starts, the scan copies one character and goes on. */
  lemma ReplaceKeepsChar(s: string, pat: string, rep: string, i: nat)
    requires pat != [] && i < |s| && !OccursAt(s, pat, i)
    ensures ReplaceAll(s[i..], pat, rep) == [s[i]] + ReplaceAll(s[i + 1..], pat, rep)
  {
    var x := s[i..];
    assert x[1..] == s[i + 1..];
    if |x| >= |pat| {
      assert x[..|pat|] == s[i..i + |pat|];
    } else {
      assert x == [s[i]] + x[1..];
    }
  }

  /** An occurrence at the start is replaced at once. */
  lemma ReplaceAtStart(s: string, pat: string, rep: string)
    requires pat != [] && |pat| <= |s| && s[..|pat|] == pat
    ensures ReplaceAll(s, pat, rep) == rep + ReplaceAll(s[|pat|..], pat, rep)
  {
  }

  /** Python's `str.lower()` restricted to the ASCII letters. */
  function ToLower(s: string): (r: string)
    ensures |r| == |s|
  {
    seq(|s|, i requires 0 <= i < |s| => if 'A' <= s[i] <= 'Z' then (s[i] as int + 32) as char else s[i])
  }

  predicate IsDigit(c: char) {
    '0' <= c <= '9'
  }

  function DigitChar(d: nat): (c: char)
    requires d < 10
    ensures IsDigit(c)
  {
    (48 + d) as char
  }

  function DigitValue(c: char): nat {
    if IsDigit(c) then c as int - 48 else 0
  }

  /** The decimal numeral of `n`, without leading zeros (Python's `str(n)`). */
  function Decimal(n: nat): (s: string)
    ensures 1 <= |s| && forall i :: 0 <= i < |s| ==> IsDigit(s[i])
    decreases n
  {
    if n < 10 then [DigitChar(n)] else Decimal(n / 10) + [DigitChar(n % 10)]
  }

  /** The value of a string of decimal digits. */
  function ParseDecimal(s: string): nat
    decreases |s|
  {
    if s == [] then 0 else 10 * ParseDecimal(s[..|s| - 1]) + DigitValue(s[|s| - 1])
  }

  function Repeat(c: char, k: nat): (r: string)
    ensures |r| == k && forall i :: 0 <= i < k ==> r[i] == c
  {
    seq(k, i => c)
  }

  /** Python's `f"{n:0w}"` for a natural number `n`: its numeral, left-padded with zeros to width `w`. */
  function ZeroPadded(n: nat, w: nat): (s: string)
    ensures |s| == if |Decimal(n)| >= w then |Decimal(n)| else w
    ensures forall i :: 0 <= i < |s| ==> IsDigit(s[i])
  {
    var d := Decimal(n);
    if |d| >= w then d else Repeat('0', w - |d|) + d
  }

  lemma {:induction false} ParseDecimalOfDecimal(n: nat)
    ensures ParseDecimal(Decimal(n)) == n
    decreases n
  {
    if n >= 10 {
      ParseDecimalOfDecimal(n / 10);
      var s := Decimal(n);
      assert s[..|s| - 1] == Decimal(n / 10);
    }
  }

  lemma {:induction false} ParseDecimalLeadingZeros(k: nat, t: string)
    ensures ParseDecimal(Repeat('0', k) + t) == ParseDecimal(t)
    decreases |t|, k
  {
    var s := Repeat('0', k) + t;
    if t == [] {
      assert s == Repeat('0', k);
      if k > 0 {
        assert s[..|s| - 1] == Repeat('0', k - 1) + [];
        ParseDecimalLeadingZeros(k - 1, []);
      }
    } else {
      assert s[..|s| - 1] == Repeat('0', k) + t[..|t| - 1];
      ParseDecimalLeadingZeros(k, t[..|t| - 1]);
    }
  }

  /** Reading back a zero-padded numeral gives the number. */
  lemma ParseZeroPadded(n: nat, w: nat)
    ensures ParseDecimal(ZeroPadded(n, w)) == n
  {
    ParseDecimalOfDecimal(n);
    var d := Decimal(n);
    if |d| < w {
      ParseDecimalLeadingZeros(w - |d|, d);
    }
  }

  /** A number below `10^w` needs at most `w` digits. */
  lemma {:induction false} DecimalLength(n: nat, w: nat, bound: nat)
    requires bound == Pow10(w) && n < bound
    ensures |Decimal(n)| <= w || (w == 0 && n == 0)
    decreases w
  {
    if w > 0 && n >= 10 {
      DecimalLength(n / 10, w - 1, Pow10(w - 1));
    }
  }

  function Pow10(w: nat): (p: nat)
    ensures p >= 1
  {
    if w == 0 then 1 else 10 * Pow10(w - 1)
  }
}
