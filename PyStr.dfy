/** Python's built-in `str` operations that the Prometheus setup helper uses,
    over strings as sequences of code points: `sub in s`, `s.split(sep)` for a
    one-character separator, `sep.join(parts)`, `s.split()` with no argument,
    `s.replace(key, value)` and `str(n)` for an integer `n`. */
module PyStr {

  // ------------------------------------------------------------- `sub in s`

  /** `sub in s`. The empty string occurs in every string. */
  predicate Contains(s: string, sub: string)
    decreases |s|
  {
    if |s| < |sub| then false
    else if s[..|sub|] == sub then true
    else Contains(s[1..], sub)
  }

  predicate IsPrefix(p: string, s: string) {
    |p| <= |s| && s[..|p|] == p
  }

  /** `value` cannot take part in a new occurrence of the non-empty `k`: it is
      non-empty, holds neither the first nor the last character of `k`, and
      does not occur inside `k`. */
  predicate CannotForm(value: string, k: string) {
    |value| > 0 && |k| > 0 && k[0] !in value && k[|k| - 1] !in value && !Contains(k, value)
  }

  /** `sub in s` holds exactly when `sub` starts at some position of `s`. */
  lemma {:induction false} ContainsIff(s: string, sub: string)
    ensures Contains(s, sub) <==> exists i :: 0 <= i <= |s| && IsPrefix(sub, s[i..])
    decreases |s|
  {
    if |s| < |sub| {
      forall i | 0 <= i <= |s| ensures !IsPrefix(sub, s[i..]) { }
    } else if s[..|sub|] == sub {
      assert s[0..] == s;
    } else {
      ContainsIff(s[1..], sub);
      assert !IsPrefix(sub, s[0..]) by { assert s[0..] == s; }
      if Contains(s[1..], sub) {
        var i :| 0 <= i <= |s[1..]| && IsPrefix(sub, s[1..][i..]);
        assert s[1..][i..] == s[i + 1..];
      } else {
        forall i | 1 <= i <= |s| ensures !IsPrefix(sub, s[i..]) {
          assert s[1..][i - 1..] == s[i..];
        }
      }
    }
  }

  lemma {:induction false} ContainsSuffix(s: string, n: nat, k: string)
    requires n <= |s|
    requires Contains(s[n..], k)
    ensures Contains(s, k)
    decreases n
  {
    if n > 0 {
      assert s[1..][n - 1..] == s[n..];
      ContainsSuffix(s[1..], n - 1, k);
    } else {
      assert s[0..] == s;
    }
  }

  /** An occurrence of a non-empty `k` cannot start inside a prefix `a` that
      lacks the first character of `k`. */
  lemma {:induction false} ContainsDropHead(a: string, b: string, k: string)
    requires |k| > 0
    requires k[0] !in a
    requires Contains(a + b, k)
    ensures Contains(b, k)
    decreases |a|
  {
    if a == [] {
      assert a + b == b;
    } else {
      assert (a + b)[0] == a[0];
      assert a[0] != k[0];
      assert (a + b)[..|k|] != k;
      assert (a + b)[1..] == a[1..] + b;
      ContainsDropHead(a[1..], b, k);
    }
  }

  // ------------------------------------------------- `s.split(sep)`, `join`

  /** `s.split(sep)` for a one-character separator: the pieces between the
      separators, in order; never empty; `"".split(sep) == [""]`. */
  function Split(s: string, sep: char): (parts: seq<string>)
    ensures |parts| >= 1
    ensures forall i :: 0 <= i < |parts| ==> sep !in parts[i]
    decreases |s|
  {
    if s == [] then [""]
    else if s[0] == sep then [""] + Split(s[1..], sep)
    else
      var rest := Split(s[1..], sep);
      [[s[0]] + rest[0]] + rest[1..]
  }

  /** The number of characters in all of `parts` together. */
  function TotalLength(parts: seq<string>): nat
    decreases |parts|
  {
    if parts == [] then 0 else |parts[0]| + TotalLength(parts[1..])
  }

  /** `sep.join(parts)`: every piece in order, one separator between neighbours. */
  function Join(parts: seq<string>, sep: char): (s: string)
    ensures |parts| >= 1 ==> |s| == TotalLength(parts) + |parts| - 1
    ensures |parts| >= 1 ==> IsPrefix(parts[0], s)
    decreases |parts|
  {
    if parts == [] then ""
    else if |parts| == 1 then parts[0]
    else parts[0] + [sep] + Join(parts[1..], sep)
  }

  /** Joining the pieces of a split gives back the string. */
  lemma {:induction false} JoinSplit(s: string, sep: char)
    ensures Join(Split(s, sep), sep) == s
    decreases |s|
  {
    if s == [] {
    } else if s[0] == sep {
      JoinSplit(s[1..], sep);
      var rest := Split(s[1..], sep);
      assert Split(s, sep) == [""] + rest;
      assert ([""] + rest)[1..] == rest;
      assert s == [sep] + s[1..];
    } else {
      JoinSplit(s[1..], sep);
      var rest := Split(s[1..], sep);
      var parts := [[s[0]] + rest[0]] + rest[1..];
      assert Split(s, sep) == parts;
      if |rest| == 1 {
        assert Join(rest, sep) == rest[0];
      } else {
        assert parts[1..] == rest[1..];
        assert Join(rest, sep) == rest[0] + [sep] + Join(rest[1..], sep);
      }
      assert s == [s[0]] + s[1..];
    }
  }

  /** A split across one separator is the two splits side by side. */
  lemma {:induction false} SplitAround(x: string, y: string, sep: char)
    ensures Split(x + [sep] + y, sep) == Split(x, sep) + Split(y, sep)
    decreases |x|
  {
    var s := x + [sep] + y;
    if x == [] {
      assert s == [sep] + y;
      assert s[1..] == y;
    } else {
      assert s[1..] == x[1..] + [sep] + y;
      SplitAround(x[1..], y, sep);
      if x[0] == sep {
      } else {
        var rest := Split(s[1..], sep);
        var rx := Split(x[1..], sep);
        assert rest == rx + Split(y, sep);
        assert rest[0] == rx[0];
        assert rest[1..] == rx[1..] + Split(y, sep);
      }
    }
  }

  lemma {:induction false} SplitNoSep(s: string, sep: char)
    requires sep !in s
    ensures Split(s, sep) == [s]
    decreases |s|
  {
    if s != [] {
      assert s[0] in s;
      assert sep !in s[1..];
      SplitNoSep(s[1..], sep);
      assert s == [s[0]] + s[1..];
    }
  }

  /** `s.split(sep)` has a single piece exactly when `sep` does not occur. */
  lemma SplitSingleIff(s: string, sep: char)
    ensures |Split(s, sep)| == 1 <==> sep !in s
  {
  }

  /** Splitting the join of separator-free pieces gives back the pieces. */
  lemma {:induction false} SplitJoin(parts: seq<string>, sep: char)
    requires |parts| >= 1
    requires forall i :: 0 <= i < |parts| ==> sep !in parts[i]
    ensures Split(Join(parts, sep), sep) == parts
    decreases |parts|
  {
    if |parts| == 1 {
      SplitNoSep(parts[0], sep);
    } else {
      SplitJoin(parts[1..], sep);
      SplitAround(parts[0], Join(parts[1..], sep), sep);
      SplitNoSep(parts[0], sep);
      assert [parts[0]] + parts[1..] == parts;
    }
  }

  lemma {:induction false} JoinSnoc(parts: seq<string>, x: string, sep: char)
    requires |parts| >= 1
    ensures Join(parts + [x], sep) == Join(parts, sep) + [sep] + x
    decreases |parts|
  {
    if |parts| == 1 {
      assert (parts + [x])[1..] == [x];
    } else {
      assert (parts + [x])[1..] == parts[1..] + [x];
      JoinSnoc(parts[1..], x, sep);
    }
  }

  /** The last piece of a split is everything after the last separator. */
  lemma LastPiece(p: string, t: string, sep: char)
    requires sep !in t
    requires p == [] || p[|p| - 1] == sep
    ensures Split(p + t, sep)[|Split(p + t, sep)| - 1] == t
  {
    SplitNoSep(t, sep);
    if p == [] {
      assert p + t == t;
    } else {
      var x := p[..|p| - 1];
      assert p + t == x + [sep] + t;
      SplitAround(x, t, sep);
    }
  }

  // ----------------------------------------------------------- `s.split()`

  /** Python's whitespace: the code points for which `str.isspace` holds. */
  predicate IsSpace(c: char) {
    var n := c as int;
    (9 <= n <= 13) || (28 <= n <= 32) || n == 0x85 || n == 0xA0 || n == 0x1680
    || (0x2000 <= n <= 0x200A) || n == 0x2028 || n == 0x2029 || n == 0x202F
    || n == 0x205F || n == 0x3000
  }

  predicate NoSpace(w: string) {
    forall i :: 0 <= i < |w| ==> !IsSpace(w[i])
  }

  /** A blank line: empty or whitespace only. */
  predicate IsBlank(s: string) {
    forall i :: 0 <= i < |s| ==> IsSpace(s[i])
  }

  /** The longest whitespace-free prefix of `s`. */
  function Word(s: string): (w: string)
    ensures IsPrefix(w, s) && NoSpace(w)
    ensures |w| == |s| || IsSpace(s[|w|])
    decreases |s|
  {
    if s == [] || IsSpace(s[0]) then "" else [s[0]] + Word(s[1..])
  }

  /** `s.split()`: the maximal whitespace-free runs of `s`, in order. */
  function Fields(s: string): (fs: seq<string>)
    ensures forall i :: 0 <= i < |fs| ==> fs[i] != "" && NoSpace(fs[i])
    decreases |s|
  {
    if s == [] then []
    else if IsSpace(s[0]) then Fields(s[1..])
    else
      var w := Word(s);
      [w] + Fields(s[|w|..])
  }

  /** `s.split()` is empty exactly for a blank line. */
  lemma {:induction false} FieldsEmptyIff(s: string)
    ensures Fields(s) == [] <==> IsBlank(s)
    decreases |s|
  {
    if s != [] {
      FieldsEmptyIff(s[1..]);
      if IsSpace(s[0]) {
        assert IsBlank(s) <==> IsBlank(s[1..]) by {
          if IsBlank(s[1..]) {
            forall i | 0 <= i < |s| ensures IsSpace(s[i]) {
              if i > 0 { assert s[i] == s[1..][i - 1]; }
            }
          }
        }
      }
    }
  }

  lemma {:induction false} FieldsAfterBlank(l: string, x: string)
    requires IsBlank(l)
    ensures Fields(l + x) == Fields(x)
    decreases |l|
  {
    if l == [] {
      assert l + x == x;
    } else {
      assert (l + x)[0] == l[0];
      assert (l + x)[1..] == l[1..] + x;
      FieldsAfterBlank(l[1..], x);
    }
  }

  lemma {:induction false} WordOf(w: string, x: string)
    requires NoSpace(w)
    requires x == [] || IsSpace(x[0])
    ensures Word(w + x) == w
    decreases |w|
  {
    if w == [] {
      assert w + x == x;
    } else {
      assert (w + x)[1..] == w[1..] + x;
      WordOf(w[1..], x);
      assert w == [w[0]] + w[1..];
    }
  }

  /** A whitespace-free word followed by whitespace (or nothing) is the first field. */
  lemma FieldsOfWord(w: string, x: string)
    requires w != [] && NoSpace(w)
    requires x == [] || IsSpace(x[0])
    ensures Fields(w + x) == [w] + Fields(x)
  {
    WordOf(w, x);
    assert (w + x)[0] == w[0];
    assert (w + x)[|w|..] == x;
  }

  // -------------------------------------------------------- `s.replace(...)`

  /** `s.replace(key, value)`: scanning left to right, every non-overlapping
      occurrence of a non-empty `key` becomes `value`; an empty `key` puts
      `value` before every character and once more at the end. */
  function Replace(s: string, key: string, value: string): (r: string)
    ensures !Contains(s, key) ==> r == s
    decreases |s|
  {
    if key == [] then Interleave(s, value)
    else if |s| < |key| then s
    else if s[..|key|] == key then value + Replace(s[|key|..], key, value)
    else
      assert s == [s[0]] + s[1..];
      [s[0]] + Replace(s[1..], key, value)
  }

  function Interleave(s: string, value: string): string
    decreases |s|
  {
    if s == [] then value else value + [s[0]] + Interleave(s[1..], value)
  }

  /** Replacing a key by itself changes nothing. */
  lemma {:induction false} ReplaceSelf(s: string, key: string)
    ensures Replace(s, key, key) == s
    decreases |s|
  {
    if key == [] {
      InterleaveEmpty(s);
    } else if |s| >= |key| {
      if s[..|key|] == key {
        ReplaceSelf(s[|key|..], key);
        assert s == s[..|key|] + s[|key|..];
      } else {
        ReplaceSelf(s[1..], key);
        assert s == [s[0]] + s[1..];
      }
    }
  }

  lemma {:induction false} InterleaveEmpty(s: string)
    ensures Interleave(s, "") == s
    decreases |s|
  {
    if s != [] {
      InterleaveEmpty(s[1..]);
      assert s == [s[0]] + s[1..];
    }
  }

  /** A non-empty prefix of `value + rest` ends inside `value` or holds all of it. */
  lemma PrefixMeetsValue(p: string, value: string, rest: string)
    requires |p| > 0 && |value| > 0
    requires IsPrefix(p, value + rest)
    ensures p[|p| - 1] in value || Contains(p, value)
  {
    if |p| <= |value| {
      assert p[|p| - 1] == value[|p| - 1];
    } else {
      assert p[..|value|] == value;
    }
  }

  /** A prefix that does not end with a character of `value` and does not hold
      `value`, and that survives a replacement, was already a prefix before it. */
  lemma {:induction false} PrefixThroughReplace(p: string, t: string, key: string, value: string)
    requires |key| > 0 && |value| > 0
    requires p != [] ==> p[|p| - 1] !in value
    requires !Contains(p, value)
    requires IsPrefix(p, Replace(t, key, value))
    ensures IsPrefix(p, t)
    decreases |t|
  {
    if p == [] || |t| < |key| {
    } else if t[..|key|] == key {
      // the prefix would end inside `value` or hold all of it
      PrefixMeetsValue(p, value, Replace(t[|key|..], key, value));
    } else {
      var r := Replace(t[1..], key, value);
      assert ([t[0]] + r)[1..] == r;
      assert IsPrefix(p[1..], r) by {
        assert r[..|p| - 1] == ([t[0]] + r)[1..|p|];
      }
      PrefixThroughReplace(p[1..], t[1..], key, value);
      assert t[..|p|] == [t[0]] + t[1..][..|p| - 1];
      assert p == [p[0]] + p[1..];
    }
  }

  /** `k` without its first character, when that rest starts `value + rest`,
      ends inside `value` or holds all of it. */
  lemma TailMeetsValue(k: string, value: string, rest: string)
    requires |k| >= 2 && |value| > 0
    requires IsPrefix(k[1..], value + rest)
    ensures k[|k| - 1] in value || Contains(k, value)
  {
    PrefixMeetsValue(k[1..], value, rest);
    if Contains(k[1..], value) {
      ContainsSuffix(k, 1, value);
    }
  }

  lemma InterleaveStartsWithValue(s: string, value: string)
    ensures Interleave(s, value) == value + Interleave(s, value)[|value|..]
  {
  }

  /** `Contains(x, k)` where `x` starts with `c`: either `k` starts there or later. */
  lemma ContainsCons(c: char, r: string, k: string)
    requires |k| > 0
    requires Contains([c] + r, k)
    ensures (k[0] == c && IsPrefix(k[1..], r)) || Contains(r, k)
  {
  }

  /** Replacing `key` by a value that cannot take part in an occurrence of `k`
      cannot create one: every `k` afterwards was there before. */
  lemma {:induction false} ContainsAfterReplace(s: string, k: string, key: string, value: string)
    requires CannotForm(value, k)
    requires Contains(Replace(s, key, value), k)
    ensures Contains(s, k)
    decreases |s|
  {
    if key == [] {
      ContainsAfterInterleave(s, k, value);
    } else if |s| < |key| {
    } else if s[..|key|] == key {
      var r := Replace(s[|key|..], key, value);
      ContainsDropHead(value, r, k);
      ContainsAfterReplace(s[|key|..], k, key, value);
      ContainsSuffix(s, |key|, k);
    } else {
      var r := Replace(s[1..], key, value);
      ContainsCons(s[0], r, k);
      if k[0] == s[0] && IsPrefix(k[1..], r) {
        PrefixThroughReplace(k[1..], s[1..], key, value);
        assert s[..|k|] == [s[0]] + s[1..][..|k| - 1];
        assert k == [k[0]] + k[1..];
        assert s[..|k|] == k;
      } else {
        ContainsAfterReplace(s[1..], k, key, value);
        ContainsSuffix(s, 1, k);
      }
    }
  }

  lemma {:induction false} ContainsAfterInterleave(s: string, k: string, value: string)
    requires CannotForm(value, k)
    requires Contains(Interleave(s, value), k)
    ensures Contains(s, k)
    decreases |s|
  {
    if s == [] {
      assert value + [] == value;
      ContainsDropHead(value, [], k);
    } else {
      var r := Interleave(s[1..], value);
      assert Interleave(s, value) == value + ([s[0]] + r);
      ContainsDropHead(value, [s[0]] + r, k);
      ContainsCons(s[0], r, k);
      if k[0] == s[0] && IsPrefix(k[1..], r) {
        if |k| == 1 {
          assert s[..1] == k;
        } else {
          // the rest of k would end inside value or hold all of it
          InterleaveStartsWithValue(s[1..], value);
          TailMeetsValue(k, value, r[|value|..]);
        }
      } else {
        ContainsAfterInterleave(s[1..], k, value);
        ContainsSuffix(s, 1, k);
      }
    }
  }

  /** Replacing `key` by a value that cannot take part in an occurrence of it
      leaves no `key` behind. */
  lemma {:induction false} ReplaceRemovesKey(s: string, key: string, value: string)
    requires CannotForm(value, key)
    ensures !Contains(Replace(s, key, value), key)
    decreases |s|
  {
    if |s| < |key| {
    } else if s[..|key|] == key {
      var r := Replace(s[|key|..], key, value);
      ReplaceRemovesKey(s[|key|..], key, value);
      if Contains(value + r, key) { ContainsDropHead(value, r, key); }
    } else {
      var r := Replace(s[1..], key, value);
      ReplaceRemovesKey(s[1..], key, value);
      if Contains([s[0]] + r, key) {
        ContainsCons(s[0], r, key);
        PrefixThroughReplace(key[1..], s[1..], key, value);
      }
    }
  }

  /** A string holding a character that `k` lacks does not occur inside `k`. */
  lemma {:induction false} ForeignCharNotInside(k: string, v: string, c: char)
    requires c in v && c !in k
    ensures !Contains(k, v)
    decreases |k|
  {
    if |k| >= |v| && k[..|v|] != v {
      assert c !in k[1..];
      ForeignCharNotInside(k[1..], v, c);
    }
  }

  /** Replacing a key by a value that does not contain it can still leave that
      key in the result: the replacement glues text on both sides together. */
  lemma ReplaceCanLeaveKey()
    ensures !Contains("a", "ab")
    ensures Replace("aabb", "ab", "a") == "aab"
    ensures Contains("aab", "ab")
  {
  }

  // --------------------------------------------------------------- `str(n)`

  predicate IsDigit(c: char) {
    '0' as int <= c as int <= '9' as int
  }

  function DigitChar(d: nat): (c: char)
    requires d < 10
    ensures IsDigit(c) && c as int - '0' as int == d
  {
    ('0' as int + d) as char
  }

  /** `str(n)` for `n >= 0`: decimal digits, no leading zero. */
  function NatToString(n: nat): (s: string)
    ensures |s| >= 1
    ensures forall i :: 0 <= i < |s| ==> IsDigit(s[i])
    decreases n
  {
    if n < 10 then [DigitChar(n)] else NatToString(n / 10) + [DigitChar(n % 10)]
  }

  /** `str(i)` for a Python `int`. */
  function IntToString(i: int): (s: string)
    ensures |s| >= 1
    ensures i < 0 <==> s[0] == '-'
    ensures forall k :: 1 <= k < |s| ==> IsDigit(s[k])
  {
    if i < 0 then "-" + NatToString(-i) else NatToString(i)
  }

  /** The value of a string of decimal digits (`int(s)`). */
  function DigitsValue(s: string): nat
    requires forall i :: 0 <= i < |s| ==> IsDigit(s[i])
    decreases |s|
  {
    if s == [] then 0
    else
      assert IsDigit(s[|s| - 1]);
      10 * DigitsValue(s[..|s| - 1]) + (s[|s| - 1] as int - '0' as int)
  }

  lemma {:induction false} DigitsValueOfNat(n: nat)
    ensures DigitsValue(NatToString(n)) == n
    decreases n
  {
    if n >= 10 {
      DigitsValueOfNat(n / 10);
      var s := NatToString(n);
      assert s[..|s| - 1] == NatToString(n / 10);
    }
  }

  /** `str` on integers is one-to-one: the decimal text determines the number. */
  lemma IntToStringInjective(a: int, b: int)
    requires IntToString(a) == IntToString(b)
    ensures a == b
  {
    var sa, sb := IntToString(a), IntToString(b);
    if a < 0 {
      assert sa[1..] == NatToString(-a) && sb[1..] == NatToString(-b);
      DigitsValueOfNat(-a);
      DigitsValueOfNat(-b);
    } else {
      DigitsValueOfNat(a);
      DigitsValueOfNat(b);
    }
  }
}
