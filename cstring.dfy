/** The hand-written string routines of src/utils/_string.c.

    A C string is a NUL-terminated run of characters inside a buffer; here a
    buffer is an `array<char>` and a `char *` is a buffer together with an
    index into it. `Str(s, p)` is the string that starts at index `p` of the
    buffer contents `s`. Every routine is specified against functions on
    sequences, and the properties callers rely on are lemmas about those. */
module CString {
  import opened Types

  const NUL: char := '\0'

  /** A NUL-terminated string starts at index `p` of the buffer contents `s`:
      there is a NUL at `p` or after it. */
  predicate Terminated(s: seq<char>, p: nat)
    decreases |s| - p
  {
    p < |s| && (s[p] == NUL || Terminated(s, p + 1))
  }

  /** The characters of the string at `p`, up to its terminator. */
  function Str(s: seq<char>, p: nat): (r: seq<char>)
    requires Terminated(s, p)
    ensures NUL !in r && p + |r| < |s|
    decreases |s| - p
  {
    if s[p] == NUL then [] else [s[p]] + Str(s, p + 1)
  }

  /** The length of the string at `p`: the distance to its terminator. */
  function Len(s: seq<char>, p: nat): nat
    requires Terminated(s, p)
  {
    |Str(s, p)|
  }

  // ---------------------------------------------------------------------------
  // Reference definitions of comparison and splitting.
  // ---------------------------------------------------------------------------

  /** The value of a C `char`, which is signed on the targets the program is
      built for: the bytes 0x80 to 0xFF read as -128 to -1. Characters beyond
      0xFF never occur in a C buffer; they keep their code, which keeps the
      mapping one-to-one. */
  function Signed(c: char): (v: int)
    ensures v == c as int || (128 <= c as int < 256 && v == c as int - 256)
    ensures v == 0 <==> c == NUL
  {
    if 128 <= c as int < 256 then c as int - 256 else c as int
  }

  /** Different characters have different values. */
  lemma SignedInjective(c: char, d: char)
    requires c != d
    ensures Signed(c) != Signed(d)
  {
  }

  /** The values of the characters of `t`, in order. */
  function Codes(t: seq<char>): (r: seq<int>)
    ensures |r| == |t| && forall i :: 0 <= i < |t| ==> r[i] == Signed(t[i])
  {
    seq(|t|, i requires 0 <= i < |t| => Signed(t[i]))
  }

  /** Character `i` of `t` read as a C string: past the end comes the NUL. */
  function At(t: seq<char>, i: nat): char
  {
    if i < |t| then t[i] else NUL
  }

  /** The length of the longest common prefix of `a` and `b`. */
  function Lcp(a: seq<char>, b: seq<char>): (k: nat)
    ensures k <= |a| && k <= |b| && a[..k] == b[..k]
    ensures k < |a| && k < |b| ==> a[k] != b[k]
  {
    if a == [] || b == [] || a[0] != b[0] then 0
    else
      var k := 1 + Lcp(a[1..], b[1..]);
      assert a[..k] == [a[0]] + a[1..][..k - 1];
      assert b[..k] == [b[0]] + b[1..][..k - 1];
      k
  }

  /** A common prefix after which the two strings differ or one ends is the
      longest one. */
  lemma {:induction false} LcpUnique(a: seq<char>, b: seq<char>, k: nat)
    requires k <= |a| && k <= |b| && a[..k] == b[..k]
    requires k < |a| && k < |b| ==> a[k] != b[k]
    ensures Lcp(a, b) == k
  {
    if k > 0 {
      assert a[0] == a[..k][0] && b[0] == b[..k][0];
      assert a[1..][..k - 1] == a[..k][1..] && b[1..][..k - 1] == b[..k][1..];
      LcpUnique(a[1..], b[1..], k - 1);
    }
  }

  /** Strings that agree on their first `n` characters have a common
      prefix of length at least `n`. */
  lemma {:induction false} LcpCovers(a: seq<char>, b: seq<char>, n: nat)
    requires n <= |a| && n <= |b| && a[..n] == b[..n]
    ensures Lcp(a, b) >= n
  {
    if n > 0 {
      assert a[0] == a[..n][0] && b[0] == b[..n][0];
      assert a[1..][..n - 1] == a[..n][1..] && b[1..][..n - 1] == b[..n][1..];
      LcpCovers(a[1..], b[1..], n - 1);
    }
  }

  /** The value `strcmp` is specified to return: the difference of the
      (signed) values of the first characters where the two strings,
      terminators included, differ; 0 when there is none. */
  function Compare(a: seq<char>, b: seq<char>): int
  {
    var k := Lcp(a, b);
    Signed(At(a, k)) - Signed(At(b, k))
  }

  /** Two strings compare as 0 exactly when they are equal. */
  lemma CompareZeroIffEqual(a: seq<char>, b: seq<char>)
    requires NUL !in a && NUL !in b
    ensures Compare(a, b) == 0 <==> a == b
  {
    var k := Lcp(a, b);
    if a == b {
      assert a[..|a|] == a;
      LcpUnique(a, b, |a|);
    }
    if At(a, k) != At(b, k) {
      SignedInjective(At(a, k), At(b, k));
    }
    if k < |a| {
      assert a[k] in a;
    } else if k < |b| {
      assert b[k] in b;
    } else {
      assert a == a[..k] && b == b[..k];
    }
  }

  /** Swapping the arguments negates the comparison. */
  lemma CompareAntisymmetric(a: seq<char>, b: seq<char>)
    ensures Compare(a, b) == -Compare(b, a)
  {
    LcpUnique(b, a, Lcp(a, b));
  }

  /** The value `strncmp` is specified to return for a positive bound `n`: 0
      when the strings agree on their first `n` characters, otherwise as
      `Compare`. */
  function CompareUpTo(a: seq<char>, b: seq<char>, n: nat): int
  {
    if Lcp(a, b) >= n then 0 else Compare(a, b)
  }

  /** The first `n` characters of `t`, or all of `t` when it is shorter. */
  function Take(t: seq<char>, n: nat): seq<char>
  {
    if n <= |t| then t[..n] else t
  }

  /** A bounded comparison is 0 exactly when the strings agree on their
      first `n` characters, or are equal and shorter than `n`. */
  lemma CompareUpToZeroIff(a: seq<char>, b: seq<char>, n: nat)
    requires NUL !in a && NUL !in b && n >= 1
    ensures CompareUpTo(a, b, n) == 0 <==> Take(a, n) == Take(b, n)
  {
    var k := Lcp(a, b);
    CompareZeroIffEqual(a, b);
    if k >= n {
      assert a[..n] == a[..k][..n] && b[..n] == b[..k][..n];
    } else if k < |a| && k < |b| {
      assert Take(a, n)[k] == a[k] && Take(b, n)[k] == b[k];
    } else if k == |a| {
      assert a == a[..k];
    } else {
      assert b == b[..k];
    }
  }

  /** The `num` characters `strncpy` writes for a source string `t`: its first
      `num` characters, padded with NULs. */
  function Padded(t: seq<char>, num: nat): (r: seq<char>)
    ensures |r| == num
    ensures forall i :: 0 <= i < num ==> r[i] == At(t, i)
  {
    if num <= |t| then t[..num] else t + seq(num - |t|, _ => NUL)
  }

  /** `strncpy` leaves a terminator within the `num` characters exactly when
      the source is shorter than `num`. */
  lemma PaddedTerminated(t: seq<char>, num: nat)
    requires NUL !in t
    ensures NUL in Padded(t, num) <==> |t| < num
  {
    if |t| < num {
      assert Padded(t, num)[|t|] == NUL;
    }
  }

  /** The leading characters of `t` equal to `c`, dropped. */
  function Skip(t: seq<char>, c: char): (r: seq<char>)
    ensures |r| <= |t|
    ensures r != [] ==> r[0] != c
    decreases |t|
  {
    if t != [] && t[0] == c then Skip(t[1..], c) else t
  }

  /** What `Skip` leaves is a suffix. */
  lemma {:induction false} SkipIsSuffix(t: seq<char>, c: char)
    ensures Skip(t, c) == t[|t| - |Skip(t, c)|..]
    decreases |t|
  {
    if t != [] && t[0] == c {
      SkipIsSuffix(t[1..], c);
      assert t[1..][|t| - 1 - |Skip(t, c)|..] == t[|t| - |Skip(t, c)|..];
    }
  }

  /** `Skip` drops a prefix of `c`s only. */
  lemma {:induction false} SkipDropsOnly(t: seq<char>, c: char)
    ensures Skip(t, c) == t[|t| - |Skip(t, c)|..]
    ensures forall i :: 0 <= i < |t| - |Skip(t, c)| ==> t[i] == c
    decreases |t|
  {
    if t != [] && t[0] == c {
      SkipDropsOnly(t[1..], c);
      assert t[1..][|t| - 1 - |Skip(t, c)|..] == t[|t| - |Skip(t, c)|..];
      forall i | 0 < i < |t| - |Skip(t, c)|
        ensures t[i] == c
      {
        assert t[i] == t[1..][i - 1];
      }
    }
  }

  /** The token `strsep` cuts from the non-empty string `s`: everything
      before the first delimiter. */
  function Token(s: seq<char>, delim: char): (r: seq<char>)
    ensures |r| <= |s| && delim !in r
  {
    s[..FirstIndex(s, delim)]
  }

  /** What `strsep` leaves of `s`: nothing when `s` holds no delimiter,
      otherwise what follows the first delimiter and the delimiters right
      after it. */
  function Rest(s: seq<char>, delim: char): (r: seq<char>)
    ensures |r| <= |s|
    ensures s != [] ==> |r| < |s|
    ensures r != [] ==> r[0] != delim
  {
    var k := FirstIndex(s, delim);
    if k == |s| then [] else Skip(s[k + 1..], delim)
  }

  /** When `s` holds a delimiter, `Rest(s)` is a suffix of `s` that starts
      past the token and its delimiter. */
  lemma RestSuffix(s: seq<char>, delim: char)
    requires delim in s
    ensures |Token(s, delim)| < |s| - |Rest(s, delim)|
    ensures Rest(s, delim) == s[|s| - |Rest(s, delim)|..]
  {
    var k := FirstIndex(s, delim);
    var t := s[k + 1..];
    var r := Skip(t, delim);
    assert Rest(s, delim) == r && |Token(s, delim)| == k;
    SkipIsSuffix(t, delim);
    assert t[|t| - |r|..] == s[|s| - |r|..];
  }

  /** `strsep` loses nothing but delimiters: when `s` holds a delimiter,
      the token is followed by a run of at least one delimiter and then by
      the rest, which together make up `s` again. */
  lemma TokenRestSplit(s: seq<char>, delim: char)
    requires delim in s
    ensures |Token(s, delim)| < |s| - |Rest(s, delim)|
    ensures forall j :: |Token(s, delim)| <= j < |s| - |Rest(s, delim)| ==> s[j] == delim
  {
    var k := FirstIndex(s, delim);
    var t := s[k + 1..];
    SkipDropsOnly(t, delim);
    var e := |s| - |Rest(s, delim)|;
    assert |Token(s, delim)| == k && e == k + 1 + |t| - |Skip(t, delim)|;
    forall j | k < j < e
      ensures s[j] == delim
    {
      assert s[j] == t[j - k - 1];
    }
  }

  /** The tokens that repeated `strsep` calls cut from `s`, in order. */
  function Tokens(s: seq<char>, delim: char): (ts: seq<seq<char>>)
    ensures |ts| <= |s|
    ensures (ts == []) == (s == [])
    decreases |s|
  {
    if s == [] then [] else [Token(s, delim)] + Tokens(Rest(s, delim), delim)
  }

  /** What is left of `s` after `k` calls to `strsep`. */
  function DropTokens(s: seq<char>, delim: char, k: nat): (r: seq<char>)
    ensures |r| <= |s|
  {
    if k == 0 then s else Rest(DropTokens(s, delim, k - 1), delim)
  }

  /** After `k` calls the remaining tokens are the original ones from `k` on. */
  lemma {:induction false} TokensAfterDrop(s: seq<char>, delim: char, k: nat)
    requires k <= |Tokens(s, delim)|
    ensures Tokens(DropTokens(s, delim, k), delim) == Tokens(s, delim)[k..]
  {
    if k > 0 {
      TokensAfterDrop(s, delim, k - 1);
      var d := DropTokens(s, delim, k - 1);
      assert Tokens(d, delim) == Tokens(s, delim)[k - 1..];
      assert Tokens(d, delim) != [];
      assert Tokens(d, delim)[1..] == Tokens(Rest(d, delim), delim);
    }
  }

  // ---------------------------------------------------------------------------
  // Facts about strings inside buffers.
  // ---------------------------------------------------------------------------

  /** The first position holding `x` is the first occurrence of `x`. */
  lemma FirstIndexAt<T>(t: seq<T>, x: T, k: nat)
    requires k < |t| && t[k] == x && forall j :: 0 <= j < k ==> t[j] != x
    ensures FirstIndex(t, x) == k
  {
  }

  /** The string at `p` is made of the characters from `p` on, and a NUL
      follows it. */
  lemma {:induction false} StrChars(s: seq<char>, p: nat)
    requires Terminated(s, p)
    ensures s[p + Len(s, p)] == NUL
    ensures forall j :: 0 <= j < Len(s, p) ==> Str(s, p)[j] == s[p + j]
    decreases |s| - p
  {
    if s[p] != NUL {
      StrChars(s, p + 1);
      forall j | 0 < j < Len(s, p)
        ensures Str(s, p)[j] == s[p + j]
      {
        assert Str(s, p)[j] == Str(s, p + 1)[j - 1];
      }
    }
  }

  /** Character `i` of the string at `p`, the terminator included, is the
      character at `p + i` of the buffer. */
  lemma CharAt(s: seq<char>, p: nat, i: nat)
    requires Terminated(s, p) && i <= Len(s, p)
    ensures p + i < |s| && s[p + i] == At(Str(s, p), i)
  {
    StrChars(s, p);
  }

  /** A buffer that holds the characters of `u` from index `d` on, followed
      by a string, holds `u` followed by that string at `d`. */
  lemma {:induction false} StrPrepend(s: seq<char>, d: nat, u: seq<char>)
    requires NUL !in u && Terminated(s, d + |u|)
    requires forall j :: 0 <= j < |u| ==> u[j] == s[d + j]
    ensures Terminated(s, d) && Str(s, d) == u + Str(s, d + |u|)
    decreases |u|
  {
    if u != [] {
      assert s[d] == u[0] && u[0] in u;
      var v := u[1..];
      forall j | 0 <= j < |v|
        ensures v[j] == s[d + 1 + j]
      {
        assert v[j] == u[j + 1];
      }
      StrPrepend(s, d + 1, v);
      assert u + Str(s, d + |u|) == [u[0]] + (v + Str(s, d + 1 + |v|));
    }
  }

  /** A buffer that holds the characters of `t` from index `d` on, followed
      by a NUL, holds the string `t` at `d`. */
  lemma StrOfPrefix(s: seq<char>, d: nat, t: seq<char>)
    requires NUL !in t && d + |t| < |s| && s[d + |t|] == NUL
    requires forall j :: 0 <= j < |t| ==> t[j] == s[d + j]
    ensures Terminated(s, d) && Str(s, d) == t
  {
    StrPrepend(s, d, t);
    assert t + [] == t;
  }

  /** A buffer holding exactly the string `t` and its terminator holds `t`
      at index 0. */
  lemma StrOfLiteral(t: seq<char>)
    requires NUL !in t
    ensures Terminated(t + [NUL], 0) && Str(t + [NUL], 0) == t
  {
    StrOfPrefix(t + [NUL], 0, t);
  }

  /** The string at `p + m`, inside the string at `p`, is its suffix. */
  lemma {:induction false} StrSuffix(s: seq<char>, p: nat, m: nat)
    requires Terminated(s, p) && m <= Len(s, p)
    ensures Terminated(s, p + m) && Str(s, p + m) == Str(s, p)[m..]
    decreases m
  {
    if m > 0 {
      StrSuffix(s, p + 1, m - 1);
      assert Str(s, p)[m..] == Str(s, p + 1)[m - 1..];
    }
  }

  /** Overwriting a character `q` of the string at `p` with a NUL leaves
      the characters before `q` as the string at `p`; the string at any
      later position `r` of the old string is unchanged. */
  lemma Cut(s0: seq<char>, p: nat, q: nat, r: nat)
    requires Terminated(s0, p) && p <= q < r <= p + Len(s0, p)
    ensures Terminated(s0[q := NUL], p) && Str(s0[q := NUL], p) == Str(s0, p)[..q - p]
    ensures Terminated(s0[q := NUL], r) && Str(s0[q := NUL], r) == Str(s0, p)[r - p..]
  {
    var s, s1 := Str(s0, p), s0[q := NUL];
    StrChars(s0, p);
    var before, after := s[..q - p], s[r - p..];
    forall j | 0 <= j < |before|
      ensures before[j] == s1[p + j]
    {
      assert before[j] == s[j];
    }
    StrOfPrefix(s1, p, before);
    forall j | 0 <= j < |after|
      ensures after[j] == s1[r + j]
    {
      assert after[j] == s[r - p + j];
    }
    StrOfPrefix(s1, r, after);
  }

  // ---------------------------------------------------------------------------
  // The routines.
  // ---------------------------------------------------------------------------

  /** `starts_with`: the pointer is not null and the string begins with
      `c`; asking for the NUL character asks whether the string is empty. */
  function StartsWith(str: array?<char>, p: nat, c: char): (r: bool)
    reads str
    requires str != null ==> Terminated(str[..], p)
    ensures c != NUL ==> (r <==> str != null && Str(str[..], p) != [] && Str(str[..], p)[0] == c)
    ensures c == NUL ==> (r <==> str != null && Str(str[..], p) == [])
  {
    str != null && str[p] == c
  }

  /** `_strlen`: the index of the first NUL from `p` on. */
  method Strlen(str: array<char>, p: nat) returns (len: nat)
    requires Terminated(str[..], p)
    ensures len == |Str(str[..], p)|
  {
    len := 0;
    while str[p + len] != NUL
      invariant Terminated(str[..], p + len) && len + Len(str[..], p + len) == Len(str[..], p)
      decreases Len(str[..], p + len)
    {
      len := len + 1;
    }
  }

  /** `_strchr`: the position of the first character of the string whose
      (signed) value is `c`, or none when there is none before the
      terminator; a search for 0, the terminator itself, finds nothing. */
  method Strchr(s: array<char>, p: nat, c: int) returns (r: Option<nat>)
    requires Terminated(s[..], p)
    ensures c !in Codes(Str(s[..], p)) ==> r == None
    ensures c in Codes(Str(s[..], p)) ==> r == Some(p + FirstIndex(Codes(Str(s[..], p)), c))
  {
    ghost var t := Codes(Str(s[..], p));
    StrChars(s[..], p);
    var i := p;
    while Signed(s[i]) != c && s[i] != NUL
      invariant p <= i <= p + |t|
      invariant forall j :: 0 <= j < i - p ==> t[j] != c
      decreases p + |t| - i
    {
      assert t[i - p] == Signed(s[i]);
      i := i + 1;
    }
    if s[i] == NUL {
      return None;
    }
    assert i - p < |t| && t[i - p] == c;
    FirstIndexAt(t, c, i - p);
    return Some(i);
  }

  /** `_strcmp`: steps over the common prefix and returns the difference of
      the (signed) values of the two characters where it ends. */
  method Strcmp(s1: array<char>, p1: nat, s2: array<char>, p2: nat) returns (r: int)
    requires Terminated(s1[..], p1) && Terminated(s2[..], p2)
    ensures r == Compare(Str(s1[..], p1), Str(s2[..], p2))
  {
    ghost var a, b := Str(s1[..], p1), Str(s2[..], p2);
    var i := 0;
    CharAt(s1[..], p1, 0);
    CharAt(s2[..], p2, 0);
    while s1[p1 + i] != NUL && s2[p2 + i] != NUL && s1[p1 + i] == s2[p2 + i]
      invariant i <= |a| && i <= |b| && a[..i] == b[..i]
      invariant p1 + i < s1.Length && s1[p1 + i] == At(a, i)
      invariant p2 + i < s2.Length && s2[p2 + i] == At(b, i)
      decreases |a| - i
    {
      assert a[..i + 1] == a[..i] + [a[i]] && b[..i + 1] == b[..i] + [b[i]];
      i := i + 1;
      CharAt(s1[..], p1, i);
      CharAt(s2[..], p2, i);
    }
    LcpUnique(a, b, i);
    r := Signed(s1[p1 + i]) - Signed(s2[p2 + i]);
  }

  /** `_strncmp` for a positive bound `n`: the comparison stops after `n`
      equal characters, and then steps back onto the last of them, which
      yields 0. */
  method Strncmp(s1: array<char>, p1: nat, s2: array<char>, p2: nat, n: int) returns (r: int)
    requires Terminated(s1[..], p1) && Terminated(s2[..], p2) && n >= 1
    ensures r == CompareUpTo(Str(s1[..], p1), Str(s2[..], p2), n)
  {
    ghost var a, b := Str(s1[..], p1), Str(s2[..], p2);
    var i := 0;
    CharAt(s1[..], p1, 0);
    CharAt(s2[..], p2, 0);
    while i < n && s1[p1 + i] != NUL && s2[p2 + i] != NUL && s1[p1 + i] == s2[p2 + i]
      invariant i <= n && i <= |a| && i <= |b| && a[..i] == b[..i]
      invariant p1 + i < s1.Length && s1[p1 + i] == At(a, i)
      invariant p2 + i < s2.Length && s2[p2 + i] == At(b, i)
      decreases n - i
    {
      assert a[..i + 1] == a[..i] + [a[i]] && b[..i + 1] == b[..i] + [b[i]];
      i := i + 1;
      CharAt(s1[..], p1, i);
      CharAt(s2[..], p2, i);
    }
    StrncmpExit(a, b, n, i);
    if i >= n {
      i := i - 1;
      CharAt(s1[..], p1, i);
      CharAt(s2[..], p2, i);
    }
    r := Signed(s1[p1 + i]) - Signed(s2[p2 + i]);
  }

  /** Where the loop of `_strncmp` leaves the two strings: after `n` equal
      characters the result is read one position back, where they agree;
      otherwise at the first difference or terminator. Either way it is the
      bounded comparison. */
  lemma StrncmpExit(a: seq<char>, b: seq<char>, n: nat, i: nat)
    requires NUL !in a && NUL !in b
    requires 1 <= n && i <= n && i <= |a| && i <= |b| && a[..i] == b[..i]
    requires i < n ==> i == |a| || i == |b| || a[i] != b[i]
    ensures var j := if i == n then n - 1 else i;
      j <= |a| && j <= |b| && CompareUpTo(a, b, n) == Signed(At(a, j)) - Signed(At(b, j))
  {
    if i == n {
      LcpCovers(a, b, n);
      assert a[..n][n - 1] == b[..n][n - 1];
    } else {
      LcpUnique(a, b, i);
    }
  }

  /** `_strcpy`: the source string and its terminator are written at index
      `d` of `dest`; nothing else changes. Source and destination must not
      overlap. */
  method Strcpy(dest: array<char>, d: nat, src: array<char>, p: nat)
    requires Terminated(src[..], p) && dest != src
    requires d + Len(src[..], p) < dest.Length
    modifies dest
    ensures dest[..] == old(dest[..d]) + Str(src[..], p) + [NUL] + old(dest[d + Len(src[..], p) + 1..])
    ensures Terminated(dest[..], d) && Str(dest[..], d) == Str(src[..], p)
  {
    ghost var t := Str(src[..], p);
    StrChars(src[..], p);
    var i := 0;
    while src[p + i] != NUL
      invariant Terminated(src[..], p + i) && i + Len(src[..], p + i) == |t|
      invariant forall j :: 0 <= j < d ==> dest[j] == old(dest[j])
      invariant forall j :: 0 <= j < i ==> t[j] == dest[d + j]
      invariant forall j :: d + i <= j < dest.Length ==> dest[j] == old(dest[j])
      decreases |t| - i
    {
      assert t[i] == src[p + i];
      dest[d + i] := src[p + i];
      i := i + 1;
    }
    dest[d + i] := NUL;
    assert dest[..] == old(dest[..d]) + t + [NUL] + old(dest[d + |t| + 1..]);
    StrOfPrefix(dest[..], d, t);
  }

  /** `_strncpy`: exactly `num` characters are written at index `d`: the
      first `num` characters of the source, padded with NULs; no terminator
      is added when the source has `num` characters or more. */
  method Strncpy(dest: array<char>, d: nat, src: array<char>, p: nat, num: nat)
    requires Terminated(src[..], p) && dest != src && d + num <= dest.Length
    modifies dest
    ensures dest[..] == old(dest[..d]) + Padded(Str(src[..], p), num) + old(dest[d + num..])
  {
    ghost var t := Str(src[..], p);
    StrChars(src[..], p);
    var i := 0;
    while src[p + i] != NUL && i < num
      invariant Terminated(src[..], p + i) && i + Len(src[..], p + i) == |t| && i <= num
      invariant forall j :: 0 <= j < d ==> dest[j] == old(dest[j])
      invariant forall j :: 0 <= j < i ==> t[j] == dest[d + j]
      invariant forall j :: d + i <= j < dest.Length ==> dest[j] == old(dest[j])
      decreases |t| - i
    {
      assert t[i] == src[p + i];
      dest[d + i] := src[p + i];
      i := i + 1;
    }
    ghost var copied := i;
    while i < num
      invariant copied <= i <= num
      invariant forall j :: 0 <= j < d ==> dest[j] == old(dest[j])
      invariant forall j :: 0 <= j < copied ==> t[j] == dest[d + j]
      invariant forall j :: d + copied <= j < d + i ==> dest[j] == NUL
      invariant forall j :: d + i <= j < dest.Length ==> dest[j] == old(dest[j])
    {
      dest[d + i] := NUL;
      i := i + 1;
    }
    assert dest[..] == old(dest[..d]) + Padded(t, num) + old(dest[d + num..]);
  }

  /** `_strcat`: the first loop is `_strlen` on the destination, the
      second `_strcpy` of the source to the destination's terminator; so the
      destination now holds the concatenation. Source and destination must
      not overlap. */
  method Strcat(dest: array<char>, d: nat, src: array<char>, p: nat)
    requires Terminated(dest[..], d) && Terminated(src[..], p) && dest != src
    requires d + Len(dest[..], d) + Len(src[..], p) < dest.Length
    modifies dest
    ensures Terminated(dest[..], d) && Str(dest[..], d) == old(Str(dest[..], d)) + Str(src[..], p)
    ensures dest[..] == old(dest[..d + Len(dest[..], d)]) + Str(src[..], p) + [NUL]
      + old(dest[d + Len(dest[..], d) + Len(src[..], p) + 1..])
  {
    ghost var s0, u, t := dest[..], Str(dest[..], d), Str(src[..], p);
    var i := Strlen(dest, d);
    Strcpy(dest, d + i, src, p);
    forall j | d <= j < d + i
      ensures dest[j] == s0[j]
    {
      assert dest[..][j] == s0[..d + i][j];
    }
    Joined(s0, dest[..], d, u, t);
  }

  /** After the string `t` is written over the terminator of the string
      `u` at `d`, leaving the characters of `u` alone, the buffer holds
      `u + t` at `d`. */
  lemma Joined(s0: seq<char>, s1: seq<char>, d: nat, u: seq<char>, t: seq<char>)
    requires Terminated(s0, d) && u == Str(s0, d)
    requires forall j :: d <= j < d + |u| && j < |s1| ==> s1[j] == s0[j]
    requires Terminated(s1, d + |u|) && Str(s1, d + |u|) == t
    ensures Terminated(s1, d) && Str(s1, d) == u + t
  {
    StrChars(s0, d);
    forall j | 0 <= j < |u|
      ensures u[j] == s1[d + j]
    {
      assert s1[d + j] == s0[d + j];
    }
    StrPrepend(s1, d, u);
  }

  /** The position of the first `c` or NUL from `p` on. */
  method Scan(buf: array<char>, p: nat, c: char) returns (q: nat)
    requires Terminated(buf[..], p)
    ensures q == p + FirstIndex(Str(buf[..], p), c)
    ensures buf[q] == NUL <==> c !in Str(buf[..], p)
  {
    ghost var t := Str(buf[..], p);
    StrChars(buf[..], p);
    q := p;
    while buf[q] != c && buf[q] != NUL
      invariant p <= q <= p + |t|
      invariant forall j :: 0 <= j < q - p ==> t[j] != c
      decreases p + |t| - q
    {
      assert t[q - p] == buf[q];
      q := q + 1;
    }
    if q < p + |t| {
      assert t[q - p] == buf[q];
      FirstIndexAt(t, c, q - p);
    }
  }

  /** The position past the run of `delim`s that starts at `p`. */
  method SkipRun(buf: array<char>, p: nat, delim: char) returns (q: nat)
    requires Terminated(buf[..], p) && delim != NUL
    ensures q == p + |Str(buf[..], p)| - |Skip(Str(buf[..], p), delim)|
  {
    ghost var t := Str(buf[..], p);
    StrChars(buf[..], p);
    q := p;
    while buf[q] == delim
      invariant p <= q <= p + |t|
      invariant forall j :: 0 <= j < q - p ==> t[j] == delim
      decreases p + |t| - q
    {
      assert t[q - p] == buf[q];
      q := q + 1;
    }
    if q < p + |t| {
      assert t[q - p] == buf[q];
    }
    SkipAt(t, delim, q - p);
  }

  /** The buffer `_strsep` leaves: the first delimiter of the string at
      `p`, if any, overwritten with a NUL. */
  function SepBuffer(s0: seq<char>, p: nat, delim: char): (s1: seq<char>)
    requires Terminated(s0, p)
    ensures |s1| == |s0|
  {
    var s := Str(s0, p);
    if delim in s then s0[p + |Token(s, delim)| := NUL] else s0
  }

  /** The position `_strsep` leaves: past the first delimiter and the run of
      delimiters after it, or at the terminator when there is no delimiter. */
  function SepEnd(s0: seq<char>, p: nat, delim: char): (q: nat)
    requires Terminated(s0, p)
  {
    var s := Str(s0, p);
    p + |s| - |Rest(s, delim)|
  }

  /** What `_strsep` leaves when the string holds no delimiter: the buffer
      is unchanged and the new position is the terminator. */
  lemma SepStringsWhole(s0: seq<char>, p: nat, delim: char)
    requires Terminated(s0, p) && delim !in Str(s0, p)
    ensures SepBuffer(s0, p, delim) == s0 && SepEnd(s0, p, delim) == p + Len(s0, p)
    ensures Terminated(s0, p + Len(s0, p)) && Str(s0, p + Len(s0, p)) == []
    ensures Token(Str(s0, p), delim) == Str(s0, p)
  {
    var s := Str(s0, p);
    StrChars(s0, p);
    StrOfPrefix(s0, p + |s|, []);
    assert s[..|s|] == s;
  }

  /** What `_strsep` leaves when the string holds a delimiter: the token at
      `p` and the rest at the new position, the first delimiter being the
      only character that changes. */
  lemma SepStringsCut(s0: seq<char>, p: nat, delim: char)
    requires Terminated(s0, p) && delim in Str(s0, p)
    ensures SepBuffer(s0, p, delim) == s0[p + |Token(Str(s0, p), delim)| := NUL]
    ensures Terminated(SepBuffer(s0, p, delim), SepEnd(s0, p, delim))
    ensures Str(SepBuffer(s0, p, delim), SepEnd(s0, p, delim)) == Rest(Str(s0, p), delim)
    ensures Terminated(SepBuffer(s0, p, delim), p) && Str(SepBuffer(s0, p, delim), p) == Token(Str(s0, p), delim)
  {
    var s := Str(s0, p);
    RestSuffix(s, delim);
    Cut(s0, p, p + |Token(s, delim)|, p + |s| - |Rest(s, delim)|);
  }

  /** The state `_strsep` reaches once it has overwritten the first
      delimiter, at `q`, with a NUL: the run of delimiters it then skips
      ends at `SepEnd`. */
  lemma SepAfterCut(s0: seq<char>, p: nat, delim: char, q: nat)
    requires Terminated(s0, p) && p <= q < p + Len(s0, p) && q == p + FirstIndex(Str(s0, p), delim)
    ensures Terminated(s0[q := NUL], q + 1)
    ensures SepEnd(s0, p, delim) == q + 1 + |Str(s0[q := NUL], q + 1)| - |Skip(Str(s0[q := NUL], q + 1), delim)|
  {
    var s := Str(s0, p);
    Cut(s0, p, q, q + 1);
    var t := Str(s0[q := NUL], q + 1);
    assert t == s[FirstIndex(s, delim) + 1..];
    assert Rest(s, delim) == Skip(t, delim);
  }

  /** `_strsep` on the string `s` at index `p`, with the single delimiter
      `delim`. On an empty string nothing happens and there is no token.
      Otherwise the token starts at `p`; the first delimiter, if any, is
      overwritten with a NUL and is the only character that changes; the new
      position `q` is past it and the delimiters that follow it, or at the
      terminator when there is none. So the token at `p` is `Token(s)` and
      the string at `q` is `Rest(s)`. */
  method Strsep(buf: array<char>, p: nat, delim: char) returns (token: Option<nat>, q: nat)
    requires Terminated(buf[..], p)
    modifies buf
    ensures token == if old(Str(buf[..], p)) == [] then None else Some(p)
    ensures q == SepEnd(old(buf[..]), p, delim) && buf[..] == SepBuffer(old(buf[..]), p, delim)
    ensures Terminated(buf[..], q) && Str(buf[..], q) == Rest(old(Str(buf[..], p)), delim)
    ensures token != None ==> Terminated(buf[..], p) && Str(buf[..], p) == Token(old(Str(buf[..], p)), delim)
  {
    ghost var s0 := buf[..];
    if buf[p] == NUL {
      SepStringsWhole(s0, p, delim);
      return None, p;
    }
    q := Scan(buf, p, delim);
    if buf[q] == NUL {
      SepStringsWhole(s0, p, delim);
      return Some(p), q;
    }
    buf[q] := NUL;
    SepStringsCut(s0, p, delim);
    SepAfterCut(s0, p, delim, q);
    assert buf[..] == s0[q := NUL];
    token := Some(p);
    q := SkipRun(buf, q + 1, delim);
  }

  /** Dropping a run of `m` leading `c`s that is followed by something else
      is what `Skip` does. */
  lemma {:induction false} SkipAt(t: seq<char>, c: char, m: nat)
    requires m <= |t| && (forall j :: 0 <= j < m ==> t[j] == c) && (m < |t| ==> t[m] != c)
    ensures Skip(t, c) == t[m..]
    decreases m
  {
    if m > 0 {
      SkipAt(t[1..], c, m - 1);
      assert t[1..][m - 1..] == t[m..];
    }
  }
}
