/**
  The three String.prototype operations the Asciidoc build provider relies on,
  as ECMA-262 (6th edition) defines them: `trim` (section 21.1.3.25), `split`
  with a one-character string separator and no limit (section 21.1.3.17) and
  `endsWith` without a position argument (section 21.1.3.6). `Join` is not used
  by the provider; it is the inverse against which `Split` is proved.
 */
module JsStrings {

  /** WhiteSpace, section 11.2: TAB, VT, FF, SP, NBSP, ZWNBSP and the other
      code points of Unicode general category Zs. */
  predicate IsWhiteSpace(c: char) {
    || c == '\t' || c == '\U{000B}' || c == '\U{000C}' || c == ' '
    || c == '\U{00A0}' || c == '\U{FEFF}'
    || c == '\U{1680}' || ('\U{2000}' <= c <= '\U{200A}')
    || c == '\U{202F}' || c == '\U{205F}' || c == '\U{3000}'
  }

  /** LineTerminator, section 11.3: LF, CR, LINE SEPARATOR, PARAGRAPH SEPARATOR. */
  predicate IsLineTerminator(c: char) {
    c == '\n' || c == '\r' || c == '\U{2028}' || c == '\U{2029}'
  }

  /** What `trim` removes: WhiteSpace and LineTerminator code points. */
  predicate IsTrimmable(c: char) {
    IsWhiteSpace(c) || IsLineTerminator(c)
  }

  ghost predicate AllTrimmable(s: string) {
    forall k {:trigger IsTrimmable(s[k])} :: 0 <= k < |s| ==> IsTrimmable(s[k])
  }

  /** Neither end of `s` is a character `trim` would remove. */
  ghost predicate TrimmedEnds(s: string) {
    s == [] || (!IsTrimmable(s[0]) && !IsTrimmable(s[|s| - 1]))
  }

  /** `s` is `r` with only trimmable characters added on either side. */
  ghost predicate PaddedBy(s: string, r: string) {
    exists i: nat :: PaddedAt(s, r, i)
  }

  /** The index of the first character at or after `i` that `trim` keeps,
      or `|s|` when there is none. */
  function TrimStartIndex(s: string, i: nat): (n: nat)
    requires i <= |s|
    ensures i <= n <= |s|
    ensures forall k :: i <= k < n ==> IsTrimmable(s[k])
    ensures n < |s| ==> !IsTrimmable(s[n])
    decreases |s| - i
  {
    if i < |s| && IsTrimmable(s[i]) then TrimStartIndex(s, i + 1) else i
  }

  /** The end of the kept part of `s[lo..j]`: the trailing trimmable
      characters before `j` are dropped, stopping at `lo`. */
  function TrimEndIndex(s: string, lo: nat, j: nat): (e: nat)
    requires lo <= j <= |s|
    ensures lo <= e <= j
    ensures forall k :: e <= k < j ==> IsTrimmable(s[k])
    ensures e > lo ==> !IsTrimmable(s[e - 1])
    decreases j
  {
    if j > lo && IsTrimmable(s[j - 1]) then TrimEndIndex(s, lo, j - 1) else j
  }

  /** String.prototype.trim: the string with its leading and trailing
      WhiteSpace and LineTerminator code points removed. */
  function Trim(s: string): (r: string)
    ensures |r| <= |s|
    ensures TrimmedEnds(r)
    ensures PaddedBy(s, r)
  {
    var n := TrimStartIndex(s, 0);
    var e := TrimEndIndex(s, n, |s|);
    assert PaddedAt(s, s[n..e], n);
    s[n..e]
  }

  /** `i` is where the middle `m` of `s` starts, with padding on both sides. */
  ghost predicate PaddedAt(s: string, m: string, i: nat) {
    && i + |m| <= |s|
    && s[i..i + |m|] == m
    && (forall k :: 0 <= k < i ==> IsTrimmable(s[k]))
    && (forall k :: i + |m| <= k < |s| ==> IsTrimmable(s[k]))
  }

  lemma PaddedAtChar(s: string, m: string, i: nat, k: nat)
    requires PaddedAt(s, m, i) && k < |s|
    ensures k < i || i + |m| <= k ==> IsTrimmable(s[k])
    ensures i <= k < i + |m| ==> s[k] == m[k - i]
  {
    if i <= k < i + |m| {
      assert s[i..i + |m|][k - i] == s[k];
    }
  }

  /** Two paddings of `s` whose middles have untrimmable ends are the same. */
  lemma PaddedAtUnique(s: string, m: string, i: nat, r: string, j: nat)
    requires PaddedAt(s, m, i) && TrimmedEnds(m)
    requires PaddedAt(s, r, j) && TrimmedEnds(r)
    ensures m == r
  {
    if m != [] {
      PaddedAtChar(s, r, j, i);
      PaddedAtChar(s, m, i, j);
      PaddedAtChar(s, r, j, i + |m| - 1);
      if r != [] {
        PaddedAtChar(s, m, i, j + |r| - 1);
      }
    } else if r != [] {
      PaddedAtChar(s, m, i, j);
    }
  }

  /** Trim removes exactly the padding: any decomposition of `s` into
      trimmable padding around a middle with untrimmable ends yields that middle. */
  lemma TrimUnique(s: string, m: string)
    requires PaddedBy(s, m) && TrimmedEnds(m)
    ensures Trim(s) == m
  {
    var r := Trim(s);
    var i: nat :| PaddedAt(s, m, i);
    var j: nat :| PaddedAt(s, r, j);
    PaddedAtUnique(s, m, i, r, j);
  }

  /** Trimming twice is trimming once. */
  lemma TrimIdempotent(s: string)
    ensures Trim(Trim(s)) == Trim(s)
  {
    var r := Trim(s);
    assert r[0..0 + |r|] == r;
    assert PaddedAt(r, r, 0);
    TrimUnique(r, r);
  }

  /** Trim gives the empty string exactly for empty or all-blank input. */
  lemma TrimEmpty(s: string)
    ensures Trim(s) == "" <==> AllTrimmable(s)
  {
    if Trim(s) == "" {
      var i: nat :| PaddedAt(s, "", i);
      forall k | 0 <= k < |s| ensures IsTrimmable(s[k]) { PaddedAtChar(s, "", i, k); }
    }
    if AllTrimmable(s) {
      assert s[0..0] == [];
      assert PaddedAt(s, "", 0);
      TrimUnique(s, "");
    }
  }

  /** String.prototype.endsWith with no end position: `suffix` is the
      last `|suffix|` code units of `s`. */
  predicate EndsWith(s: string, suffix: string) {
    |suffix| <= |s| && s[|s| - |suffix|..] == suffix
  }

  lemma EndsWithConcat(s: string, suffix: string)
    ensures EndsWith(s, suffix) <==> exists stem :: s == stem + suffix
  {
    if EndsWith(s, suffix) {
      var stem := s[..|s| - |suffix|];
      assert s == stem + suffix;
    }
    forall stem | s == stem + suffix
      ensures EndsWith(s, suffix)
    {
      assert s[|s| - |suffix|..] == suffix;
    }
  }

  /** Index of the first occurrence of `c` in `s`. */
  function IndexOf(s: string, c: char): (i: nat)
    requires c in s
    ensures i < |s| && s[i] == c && c !in s[..i]
  {
    if s[0] == c then 0
    else
      assert s == [s[0]] + s[1..];
      var k := IndexOf(s[1..], c);
      assert s[..k + 1] == [s[0]] + s[1..][..k];
      k + 1
  }

  /** The pieces of `s` between occurrences of `sep`, left to right, with no
      bound on their number. */
  function Split(s: string, sep: char): (r: seq<string>)
    ensures |r| >= 1
    ensures forall t :: t in r ==> sep !in t
    decreases |s|
  {
    if sep in s then
      var i := IndexOf(s, sep);
      [s[..i]] + Split(s[i + 1..], sep)
    else
      [s]
  }

  /** Array.prototype.join: the tokens with `sep` between consecutive ones. */
  function Join(ts: seq<string>, sep: char): string
    decreases |ts|
  {
    if |ts| == 0 then ""
    else if |ts| == 1 then ts[0]
    else ts[0] + [sep] + Join(ts[1..], sep)
  }

  /** Joining the pieces puts the separators back where they were. */
  lemma {:induction false} JoinSplit(s: string, sep: char)
    ensures Join(Split(s, sep), sep) == s
    decreases |s|
  {
    if sep in s {
      var i := IndexOf(s, sep);
      var rest := Split(s[i + 1..], sep);
      JoinSplit(s[i + 1..], sep);
      assert Split(s, sep) == [s[..i]] + rest;
      assert s == s[..i] + [sep] + s[i + 1..];
    }
  }

  /** Splitting a join of separator-free tokens gives the tokens back. */
  lemma {:induction false} SplitJoin(ts: seq<string>, sep: char)
    requires |ts| >= 1
    requires forall k :: 0 <= k < |ts| ==> sep !in ts[k]
    ensures Split(Join(ts, sep), sep) == ts
    decreases |ts|
  {
    if |ts| > 1 {
      var rest := Join(ts[1..], sep);
      var s := Join(ts, sep);
      assert s == ts[0] + [sep] + rest;
      IndexOfAfter(ts[0], sep, rest);
      assert s[..|ts[0]|] == ts[0];
      assert s[|ts[0]| + 1..] == rest;
      SplitJoin(ts[1..], sep);
    }
  }

  /** The first `c` of `a + [c] + b` is the one after `a` when `a` has none. */
  lemma IndexOfAfter(a: string, c: char, b: string)
    requires c !in a
    ensures c in a + [c] + b && IndexOf(a + [c] + b, c) == |a|
  {
    var s := a + [c] + b;
    assert s[|a|] == c;
  }

  /** Every occurrence of `sep` ends exactly one piece. */
  lemma {:induction false} SplitCount(s: string, sep: char)
    ensures |Split(s, sep)| == multiset(s)[sep] + 1
    decreases |s|
  {
    if sep in s {
      var i := IndexOf(s, sep);
      SplitCount(s[i + 1..], sep);
      assert s == s[..i] + [sep] + s[i + 1..];
      assert multiset(s) == multiset(s[..i]) + multiset{sep} + multiset(s[i + 1..]);
    } else {
      assert multiset(s)[sep] == 0;
    }
  }

  /** The first piece is empty only when `s` is empty or starts with `sep`. */
  lemma SplitFirst(s: string, sep: char)
    requires s != [] && s[0] != sep
    ensures Split(s, sep)[0] != ""
  {
    if sep in s {
      var i := IndexOf(s, sep);
      assert s[..i][0] == s[0];
    }
  }

  /** The last piece is empty only when `s` is empty or ends with `sep`. */
  lemma SplitLast(s: string, sep: char)
    requires s != [] && s[|s| - 1] != sep
    ensures Split(s, sep)[|Split(s, sep)| - 1] != ""
  {
    var r := Split(s, sep);
    if r[|r| - 1] == "" {
      JoinSplit(s, sep);
      if |r| > 1 {
        JoinEndsWithSep(r, sep);
      }
    }
  }

  /** A join of two or more tokens whose last token is empty ends with the separator. */
  lemma {:induction false} JoinEndsWithSep(ts: seq<string>, sep: char)
    requires |ts| >= 2 && ts[|ts| - 1] == ""
    ensures var s := Join(ts, sep); s != [] && s[|s| - 1] == sep
    decreases |ts|
  {
    var rest := Join(ts[1..], sep);
    assert Join(ts, sep) == ts[0] + [sep] + rest;
    if |ts| > 2 {
      JoinEndsWithSep(ts[1..], sep);
    } else {
      assert rest == ts[1] == "";
    }
  }

  /** The implementation bound on the result of `split` when the limit
      argument is undefined: 2^32 - 1 elements. */
  const SplitLimit: nat := 0xFFFF_FFFF

  /** String.prototype.split with a one-character string separator and an
      undefined limit: the pieces of `s` between separators, at most
      `SplitLimit` of them. An empty `s` gives one empty piece. */
  function StringSplit(s: string, sep: char): (r: seq<string>)
    ensures 1 <= |r| <= SplitLimit
    ensures forall t :: t in r ==> sep !in t
    ensures |r| == if multiset(s)[sep] < SplitLimit then multiset(s)[sep] + 1 else SplitLimit
    ensures |r| <= |Split(s, sep)| && r == Split(s, sep)[..|r|]
    ensures multiset(s)[sep] < SplitLimit ==> r == Split(s, sep)
  {
    var ts := Split(s, sep);
    SplitCount(s, sep);
    if |ts| <= SplitLimit then ts
    else
      var r := ts[..SplitLimit];
      assert forall t :: t in r ==> t in ts;
      r
  }

  /** The first piece is non-empty when `s` does not start with `sep`, and
      below the cap the last one is non-empty when `s` does not end with it. */
  lemma StringSplitEnds(s: string, sep: char)
    requires s != [] && s[0] != sep && s[|s| - 1] != sep
    ensures StringSplit(s, sep)[0] != ""
    ensures multiset(s)[sep] < SplitLimit ==> StringSplit(s, sep)[|StringSplit(s, sep)| - 1] != ""
  {
    var pieces := Split(s, sep);
    var r := StringSplit(s, sep);
    SplitFirst(s, sep);
    SplitLast(s, sep);
    assert r[0] == pieces[..|r|][0] == pieces[0];
    if multiset(s)[sep] < SplitLimit {
      assert r == pieces;
    }
  }
}
