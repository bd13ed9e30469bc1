/** The JavaScript string operations the backend relies on, with their
    JavaScript meaning written out: `includes`, `split` on a string separator,
    `join`, `trim`, `toLowerCase`, `.length` (UTF-16 code units) and the
    decimal rendering of a non-negative integer. */
module Text {

  import opened Optional

  // ---------------------------------------------------------------------------
  // Substring search (`String.prototype.indexOf` / `includes`)
  // ---------------------------------------------------------------------------

  /** `key` occurs in `s` starting at index `i`. */
  predicate OccursAt(s: string, key: string, i: nat)
  {
    i + |key| <= |s| && s[i..i + |key|] == key
  }

  /** The first index at or after `from` where `key` occurs in `s`. */
  function Find(s: string, key: string, from: nat): (r: Option<nat>)
    ensures r.Some? ==> from <= r.value && OccursAt(s, key, r.value)
    ensures r.Some? ==> forall j :: from <= j < r.value ==> !OccursAt(s, key, j)
    ensures r.None? ==> forall j :: from <= j ==> !OccursAt(s, key, j)
    decreases |s| - from
  {
    if |s| < from + |key| then None
    else if s[from..from + |key|] == key then Some(from)
    else Find(s, key, from + 1)
  }

  /** JavaScript's `s.includes(key)`. */
  predicate Contains(s: string, key: string)
  {
    Find(s, key, 0).Some?
  }

  /** A key placed between two texts is contained in the result. */
  lemma ContainsInfix(a: string, key: string, b: string)
    ensures Contains(a + key + b, key)
  {
    var s := a + key + b;
    assert s[|a|..|a| + |key|] == key;
    OccurrenceContains(s, key, |a|);
  }

  /** `Contains` holds exactly when the key occurs somewhere. */
  lemma ContainsIffOccurs(s: string, key: string)
    ensures Contains(s, key) <==> exists i :: OccursAt(s, key, i)
  {
    if exists i :: OccursAt(s, key, i) {
      var i :| OccursAt(s, key, i);
      assert 0 <= i;
    }
  }

  /** An occurrence is witness enough for `Contains`. */
  lemma OccurrenceContains(s: string, key: string, i: nat)
    requires OccursAt(s, key, i)
    ensures Contains(s, key)
  {
  }

  /** Every character of a contained key occurs in the string. */
  lemma ContainedKeyChars(s: string, key: string, k: nat)
    requires k < |key|
    ensures Contains(s, key) ==> key[k] in s
  {
    if Contains(s, key) {
      var i := Find(s, key, 0).value;
      assert s[i..i + |key|][k] == s[i + k];
    }
  }

  /** A key with a character the string lacks is not contained in it. */
  lemma AbsentByChar(s: string, key: string, k: nat)
    requires k < |key| && key[k] !in s
    ensures !Contains(s, key)
  {
    ContainedKeyChars(s, key, k);
  }

  /** A one-character key is contained exactly when the character occurs. */
  lemma ContainsChar(s: string, c: char)
    ensures Contains(s, [c]) <==> c in s
  {
    if c in s {
      var i :| 0 <= i < |s| && s[i] == c;
      assert s[i..i + 1] == [c];
      OccurrenceContains(s, [c], i);
    }
    if Contains(s, [c]) {
      ContainedKeyChars(s, [c], 0);
    }
  }

  /** An occurrence in a slice is an occurrence in the whole string. */
  lemma OccursInSlice(s: string, lo: nat, hi: nat, key: string, i: nat)
    requires lo <= hi <= |s|
    ensures OccursAt(s[lo..hi], key, i) ==> OccursAt(s, key, lo + i)
  {
    if OccursAt(s[lo..hi], key, i) {
      var t := s[lo..hi];
      assert forall k :: 0 <= k < |t| ==> t[k] == s[lo + k];
      assert s[lo..hi][i..i + |key|] == s[lo + i..lo + i + |key|];
    }
  }

  /** A prefix that ends before the first occurrence of `key` does not contain it. */
  lemma NotContainedBeforeFirst(s: string, key: string, p: nat)
    requires p <= |s|
    requires forall j :: 0 <= j < p ==> !OccursAt(s, key, j)
    requires |key| > 0
    ensures !Contains(s[..p], key)
  {
    forall i | 0 <= i
      ensures !OccursAt(s[..p], key, i)
    {
      OccursInSlice(s, 0, p, key, i);
    }
    ContainsIffOccurs(s[..p], key);
  }

  /** A string that contains a longer key contains each prefix of that key:
      whatever contains "saved" contains "save". */
  lemma ContainsPrefixOfKey(s: string, key: string, n: nat)
    requires n <= |key|
    requires Contains(s, key)
    ensures Contains(s, key[..n])
  {
    var i := Find(s, key, 0).value;
    assert s[i..i + n] == s[i..i + |key|][..n];
    assert OccursAt(s, key[..n], i);
  }

  // ---------------------------------------------------------------------------
  // `split` on a string separator and `join`
  // ---------------------------------------------------------------------------

  /** JavaScript's `s.split(sep)` for a non-empty separator: the pieces between
      consecutive left-to-right occurrences of `sep`. */
  function Split(s: string, sep: string): (pieces: seq<string>)
    requires |sep| > 0
    ensures |pieces| >= 1
    ensures |pieces| == 1 <==> !Contains(s, sep)
    ensures !Contains(pieces[0], sep)
    decreases |s|
  {
    var f := Find(s, sep, 0);
    if f.None? then [s]
    else
      var p := f.value;
      NotContainedBeforeFirst(s, sep, p);
      [s[..p]] + Split(s[p + |sep|..], sep)
  }

  /** Text without the separator splits into itself alone. */
  lemma SplitWithoutSeparator(s: string, sep: string)
    requires |sep| > 0 && !Contains(s, sep)
    ensures Split(s, sep) == [s]
  {
  }

  /** JavaScript's `pieces.join(sep)`. */
  function Join(pieces: seq<string>, sep: string): (s: string)
    ensures |pieces| == 1 ==> s == pieces[0]
  {
    if |pieces| == 0 then ""
    else if |pieces| == 1 then pieces[0]
    else pieces[0] + sep + Join(pieces[1..], sep)
  }

  /** Joining a piece to at least one more piece puts the separator between them. */
  lemma JoinCons(head: string, rest: seq<string>, sep: string)
    requires |rest| >= 1
    ensures Join([head] + rest, sep) == head + sep + Join(rest, sep)
  {
    assert ([head] + rest)[1..] == rest;
  }

  /** A split at a first occurrence `p`: the piece before it, then the split of the rest. */
  lemma SplitAtFirst(s: string, sep: string, p: nat)
    requires |sep| > 0
    requires Find(s, sep, 0) == Some(p)
    ensures Split(s, sep) == [s[..p]] + Split(s[p + |sep|..], sep)
    ensures s == s[..p] + sep + s[p + |sep|..]
  {
    assert s == s[..p] + s[p..p + |sep|] + s[p + |sep|..];
  }

  /** Joining the pieces of a split with the same separator restores the string. */
  lemma {:induction false} JoinSplit(s: string, sep: string)
    requires |sep| > 0
    ensures Join(Split(s, sep), sep) == s
    decreases |s|
  {
    var f := Find(s, sep, 0);
    if f.Some? {
      var p := f.value;
      var rest := s[p + |sep|..];
      JoinSplit(rest, sep);
      SplitAtFirst(s, sep, p);
      JoinCons(s[..p], Split(rest, sep), sep);
    }
  }

  /** Splitting a join of pieces that do not contain the separator gives the pieces back. */
  lemma {:induction false} SplitJoin(pieces: seq<string>, sep: string)
    requires |sep| > 0 && NoProperBorder(sep)
    requires |pieces| >= 1
    requires forall k :: 0 <= k < |pieces| ==> !Contains(pieces[k], sep)
    ensures Split(Join(pieces, sep), sep) == pieces
    decreases |pieces|
  {
    if |pieces| > 1 {
      var rest := pieces[1..];
      assert pieces == [pieces[0]] + rest;
      JoinCons(pieces[0], rest, sep);
      SplitCons(pieces[0], sep, Join(rest, sep));
      assert forall k :: 0 <= k < |rest| ==> rest[k] == pieces[k + 1];
      SplitJoin(rest, sep);
    }
  }

  /** Splitting at a separator that follows a separator-free head. */
  lemma SplitCons(head: string, sep: string, tail: string)
    requires |sep| > 0 && NoProperBorder(sep)
    requires !Contains(head, sep)
    ensures Split(head + sep + tail, sep) == [head] + Split(tail, sep)
  {
    var s := head + sep + tail;
    FirstAtSeparator(head, sep, tail);
    SplitAtFirst(s, sep, |head|);
    assert s[..|head|] == head;
    assert s[|head| + |sep|..] == tail;
  }

  /** For a separator without a proper border, its first occurrence in
      `head + sep + tail` is the one after `head` when `head` does not
      contain it. */
  lemma FirstAtSeparator(head: string, sep: string, tail: string)
    requires NoProperBorder(sep)
    requires !Contains(head, sep)
    ensures Find(head + sep + tail, sep, 0) == Some(|head|)
  {
    var s := head + sep + tail;
    assert s[|head|..|head| + |sep|] == sep;
    ContainsIffOccurs(head, sep);
    forall j | 0 <= j < |head|
      ensures !OccursAt(s, sep, j)
    {
      OccurrenceBeforeSeparator(head, sep, tail, j);
    }
    assert OccursAt(s, sep, |head|);
    var f := Find(s, sep, 0);
    assert f.Some? && f.value <= |head|;
  }

  /** An occurrence of `sep` that starts inside `head` in `head + sep + tail`
      either lies wholly inside `head` or overlaps the following `sep`, in which
      case `sep` has a proper border. */
  lemma OccurrenceBeforeSeparator(head: string, sep: string, tail: string, j: nat)
    requires j < |head|
    ensures OccursAt(head + sep + tail, sep, j) ==> OccursAt(head, sep, j) || HasBorder(sep, |head| - j)
  {
    var s := head + sep + tail;
    if OccursAt(s, sep, j) {
      if j + |sep| <= |head| {
        assert s[j..j + |sep|] == head[j..j + |sep|];
      } else {
        var L := |head| - j;
        forall k | 0 <= k < |sep| - L
          ensures sep[L..][k] == sep[..|sep| - L][k]
        {
          assert s[j..j + |sep|][L + k] == s[|head| + k];
        }
        assert sep[L..] == sep[..|sep| - L];
      }
    }
  }

  /** `sep` has a border of shift `L`: its suffix from `L` equals its prefix of
      the same length. */
  predicate HasBorder(sep: string, L: nat)
  {
    0 < L < |sep| && sep[L..] == sep[..|sep| - L]
  }

  /** No proper suffix of `sep` is also a prefix of it (true of every
      single-character string and of the model's fixed markers). */
  predicate NoProperBorder(sep: string)
  {
    forall L :: 0 < L < |sep| ==> !HasBorder(sep, L)
  }

  // ---------------------------------------------------------------------------
  // `trim`
  // ---------------------------------------------------------------------------

  /** The code points `String.prototype.trim` removes: ECMAScript WhiteSpace
      (tab, vertical tab, form feed, space, no-break space, zero-width no-break
      space and every other space separator) and LineTerminator (LF, CR, LS, PS). */
  predicate IsJsSpace(c: char)
  {
    var n := c as int;
    n == 0x09 || n == 0x0A || n == 0x0B || n == 0x0C || n == 0x0D || n == 0x20
    || n == 0xA0 || n == 0x1680 || (0x2000 <= n <= 0x200A) || n == 0x2028
    || n == 0x2029 || n == 0x202F || n == 0x205F || n == 0x3000 || n == 0xFEFF
  }

  predicate AllSpace(s: string)
  {
    forall k :: 0 <= k < |s| ==> IsJsSpace(s[k])
  }

  /** Index of the first non-whitespace character (or `|s|`). */
  function StartIndex(s: string): (i: nat)
    ensures i <= |s|
    ensures AllSpace(s[..i])
    ensures i < |s| ==> !IsJsSpace(s[i])
    decreases |s|
  {
    if |s| == 0 || !IsJsSpace(s[0]) then 0
    else
      var i := 1 + StartIndex(s[1..]);
      assert s[..i] == [s[0]] + s[1..][..i - 1];
      i
  }

  /** One past the index of the last non-whitespace character (or 0). */
  function EndIndex(s: string): (j: nat)
    ensures j <= |s|
    ensures AllSpace(s[j..])
    ensures j > 0 ==> !IsJsSpace(s[j - 1])
    decreases |s|
  {
    if |s| == 0 || !IsJsSpace(s[|s| - 1]) then |s|
    else
      var j := EndIndex(s[..|s| - 1]);
      assert s[j..] == s[..|s| - 1][j..] + [s[|s| - 1]];
      j
  }

  /** `s` is `r` with whitespace-only padding `s[..i]` in front and whitespace
      after. */
  predicate PaddedAt(s: string, r: string, i: nat)
  {
    i + |r| <= |s| && s[i..i + |r|] == r && AllSpace(s[..i]) && AllSpace(s[i + |r|..])
  }

  /** JavaScript's `s.trim()`. */
  function Trim(s: string): (r: string)
    ensures |r| <= |s|
    ensures |r| > 0 ==> !IsJsSpace(r[0]) && !IsJsSpace(r[|r| - 1])
    ensures PaddedAt(s, r, StartIndex(s))
  {
    var i := StartIndex(s);
    var t := s[i..];
    var j := EndIndex(t);
    assert t[..j] == s[i..i + j];
    assert s[i + j..] == t[j..];
    assert j > 0 ==> t[..j][0] == s[i] && t[..j][j - 1] == t[j - 1];
    t[..j]
  }

  /** Trimming a string padded with whitespace on both sides recovers the
      string, when the string itself starts and ends with non-whitespace. */
  lemma TrimPadded(front: string, s: string, back: string)
    requires AllSpace(front) && AllSpace(back)
    requires |s| > 0 && !IsJsSpace(s[0]) && !IsJsSpace(s[|s| - 1])
    ensures Trim(front + s + back) == s
  {
    var whole := front + s + back;
    var i := StartIndex(whole);
    assert forall k :: 0 <= k < |front| ==> whole[k] == front[k];
    assert !IsJsSpace(whole[|front|]);
    assert i == |front|;
    var t := whole[i..];
    assert t == s + back;
    var j := EndIndex(t);
    assert forall k :: |s| <= k < |t| ==> t[k] == back[k - |s|];
    assert !IsJsSpace(t[|s| - 1]);
    assert j == |s|;
  }

  /** Trimming cannot create an occurrence: the trimmed text is a part of
      the original. */
  lemma TrimKeepsAbsence(s: string, key: string)
    requires !Contains(s, key)
    ensures !Contains(Trim(s), key)
  {
    var r := Trim(s);
    var i := StartIndex(s);
    forall k | 0 <= k
      ensures !OccursAt(r, key, k)
    {
      OccursInSlice(s, i, i + |r|, key, k);
    }
    ContainsIffOccurs(r, key);
    ContainsIffOccurs(s, key);
  }

  // ---------------------------------------------------------------------------
  // `toLowerCase`
  // ---------------------------------------------------------------------------

  /** The lower-case form of one code point. ASCII capitals are mapped down;
      U+0130 (capital I with dot above) becomes "i" followed by U+0307, and
      U+212A (Kelvin sign) becomes "k", as in Unicode's default case mapping.
      Every other code point is kept: its Unicode lower-case form contains no
      ASCII character, so keeping it changes no match against an ASCII key. */
  function LowerChar(c: char): (r: string)
    ensures 1 <= |r| <= 2
  {
    if 'A' <= c <= 'Z' then [(c as int + 32) as char]
    else if c as int == 0x130 then ['i', 0x307 as char]
    else if c as int == 0x212A then ['k']
    else [c]
  }

  /** JavaScript's `s.toLowerCase()`, restricted as `LowerChar` describes. */
  function Lower(s: string): (r: string)
    ensures |s| <= |r| <= 2 * |s|
    ensures forall k :: 0 <= k < |r| ==> !('A' <= r[k] <= 'Z')
  {
    if |s| == 0 then "" else LowerChar(s[0]) + Lower(s[1..])
  }

  lemma {:induction false} LowerAppend(a: string, b: string)
    ensures Lower(a + b) == Lower(a) + Lower(b)
    decreases |a|
  {
    if |a| > 0 {
      assert (a + b)[0] == a[0];
      assert (a + b)[1..] == a[1..] + b;
      LowerAppend(a[1..], b);
      calc {
        Lower(a + b);
        LowerChar(a[0]) + Lower(a[1..] + b);
        LowerChar(a[0]) + (Lower(a[1..]) + Lower(b));
        (LowerChar(a[0]) + Lower(a[1..])) + Lower(b);
      }
    } else {
      assert a + b == b;
    }
  }

  /** Lowering twice is lowering once. */
  lemma {:induction false} LowerIdempotent(s: string)
    ensures Lower(Lower(s)) == Lower(s)
    decreases |s|
  {
    if |s| > 0 {
      var c := LowerChar(s[0]);
      LowerAppend(c, Lower(s[1..]));
      LowerIdempotent(s[1..]);
      LowerCharIdempotent(s[0]);
    }
  }

  lemma LowerCharIdempotent(ch: char)
    ensures Lower(LowerChar(ch)) == LowerChar(ch)
  {
    var c := LowerChar(ch);
    if |c| == 1 {
      assert Lower(c) == LowerChar(c[0]) + Lower(c[1..]);
    } else {
      assert c[1..][1..] == "";
      assert Lower(c) == LowerChar(c[0]) + (LowerChar(c[1]) + Lower(""));
    }
  }

  /** The lower-case form of an ASCII capital; any other character is kept. */
  function AsciiLower(c: char): char
  {
    if 'A' <= c <= 'Z' then (c as int + 32) as char else c
  }

  /** On text without U+0130 and U+212A, lowering maps each ASCII capital to
      its small letter and keeps every other character in place. */
  lemma {:induction false} LowerIsAsciiLower(s: string)
    requires forall k :: 0 <= k < |s| ==> s[k] as int != 0x130 && s[k] as int != 0x212A
    ensures |Lower(s)| == |s|
    ensures forall k :: 0 <= k < |s| ==> Lower(s)[k] == AsciiLower(s[k])
    decreases |s|
  {
    if |s| > 0 {
      var rest := s[1..];
      assert forall k :: 0 <= k < |rest| ==> rest[k] == s[k + 1];
      LowerIsAsciiLower(rest);
      assert LowerChar(s[0]) == [AsciiLower(s[0])];
      assert Lower(s) == [AsciiLower(s[0])] + Lower(rest);
    }
  }

  /** `a` and `b` are the same ASCII letter in opposite cases. */
  predicate OtherAsciiCase(a: char, b: char)
  {
    ('A' <= a <= 'Z' && b as int == a as int + 32) || ('a' <= a <= 'z' && b as int == a as int - 32)
  }

  /** Two strings that differ at most in the case of ASCII letters. */
  predicate SameIgnoringAsciiCase(s: string, t: string)
  {
    |s| == |t| && forall k :: 0 <= k < |s| ==> s[k] == t[k] || OtherAsciiCase(s[k], t[k])
  }

  /** Characters that are equal or the same ASCII letter in opposite cases lower alike. */
  lemma LowerCharIgnoresCase(a: char, b: char)
    requires a == b || OtherAsciiCase(a, b)
    ensures LowerChar(a) == LowerChar(b)
  {
  }

  /** Two strings that differ only in the case of ASCII letters lower to the
      same string. */
  lemma {:induction false} LowerIgnoresCase(s: string, t: string)
    requires SameIgnoringAsciiCase(s, t)
    ensures Lower(s) == Lower(t)
    decreases |s|
  {
    if |s| > 0 {
      assert SameIgnoringAsciiCase(s[1..], t[1..]) by {
        forall k | 0 <= k < |s| - 1
          ensures s[1..][k] == t[1..][k] || OtherAsciiCase(s[1..][k], t[1..][k])
        {
          assert s[1..][k] == s[k + 1] && t[1..][k] == t[k + 1];
        }
      }
      LowerCharIgnoresCase(s[0], t[0]);
      LowerIgnoresCase(s[1..], t[1..]);
    }
  }

  // ---------------------------------------------------------------------------
  // `.length`: UTF-16 code units
  // ---------------------------------------------------------------------------

  /** JavaScript's `s.length`: code points above U+FFFF take two UTF-16 code units. */
  function Utf16Length(s: string): (n: nat)
    ensures |s| <= n <= 2 * |s|
  {
    if |s| == 0 then 0
    else (if s[0] as int > 0xFFFF then 2 else 1) + Utf16Length(s[1..])
  }

  /** On text in the Basic Multilingual Plane the JavaScript length is the
      number of code points. */
  lemma {:induction false} Utf16LengthOfBmp(s: string)
    requires forall k :: 0 <= k < |s| ==> s[k] as int <= 0xFFFF
    ensures Utf16Length(s) == |s|
    decreases |s|
  {
    if |s| > 0 {
      assert forall k :: 0 <= k < |s| - 1 ==> s[1..][k] == s[k + 1];
      Utf16LengthOfBmp(s[1..]);
    }
  }

  /** A single code point counts two code units above U+FFFF and one otherwise. */
  lemma Utf16LengthOfChar(c: char)
    ensures Utf16Length([c]) == if c as int > 0xFFFF then 2 else 1
  {
  }

  /** The JavaScript length of a concatenation is the sum of the lengths. */
  lemma {:induction false} Utf16LengthAppend(a: string, b: string)
    ensures Utf16Length(a + b) == Utf16Length(a) + Utf16Length(b)
    decreases |a|
  {
    if |a| > 0 {
      assert (a + b)[0] == a[0];
      assert (a + b)[1..] == a[1..] + b;
      Utf16LengthAppend(a[1..], b);
    } else {
      assert a + b == b;
    }
  }

  // ---------------------------------------------------------------------------
  // Decimal rendering of a non-negative integer (template-literal `${n}`)
  // ---------------------------------------------------------------------------

  predicate IsDigit(c: char)
  {
    '0' <= c <= '9'
  }

  predicate AllDigits(s: string)
  {
    forall k :: 0 <= k < |s| ==> IsDigit(s[k])
  }

  function DigitChar(d: nat): (c: char)
    requires d < 10
    ensures IsDigit(c) && c as int - '0' as int == d
  {
    ('0' as int + d) as char
  }

  /** The decimal digits of `n`, without leading zeros. */
  function NatToString(n: nat): (r: string)
    ensures |r| > 0 && AllDigits(r)
    ensures r[0] == '0' ==> n == 0 && r == "0"
  {
    if n < 10 then [DigitChar(n)]
    else NatToString(n / 10) + [DigitChar(n % 10)]
  }

  /** The value of a string of decimal digits. */
  function ParseDigits(s: string): nat
    requires AllDigits(s)
  {
    if |s| == 0 then 0
    else 10 * ParseDigits(s[..|s| - 1]) + (s[|s| - 1] as int - '0' as int)
  }

  /** Reading back a rendered number gives the number. */
  lemma {:induction false} ParseNatToString(n: nat)
    ensures ParseDigits(NatToString(n)) == n
  {
    if n >= 10 {
      var r := NatToString(n);
      assert r[..|r| - 1] == NatToString(n / 10);
      ParseNatToString(n / 10);
    }
  }

  /** Distinct numbers render differently. */
  lemma NatToStringInjective(m: nat, n: nat)
    requires NatToString(m) == NatToString(n)
    ensures m == n
  {
    ParseNatToString(m);
    ParseNatToString(n);
  }

}
