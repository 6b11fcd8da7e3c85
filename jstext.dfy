/**
 * The JavaScript string built-ins the scraping scripts rely on, over strings as
 * sequences of characters: `split` on a one-character separator (and its
 * inverse, `join`), `indexOf` and `lastIndexOf`, `replace` with a string
 * pattern (which replaces the FIRST occurrence only), and `trim`.
 */
module JsText {

  /** `pat` occurs in `s` starting at index `k`. */
  predicate OccursAt(s: string, pat: string, k: int) {
    0 <= k && k + |pat| <= |s| && s[k..k + |pat|] == pat
  }

  /** `s.indexOf(pat)`: the first index at which `pat` occurs, or -1. */
  function IndexOf(s: string, pat: string): (r: int)
    ensures r == -1 || (0 <= r && r + |pat| <= |s|)
  {
    IndexOfFrom(s, pat, 0)
  }

  /** The search for `IndexOf`, starting at `from`. */
  function IndexOfFrom(s: string, pat: string, from: nat): (r: int)
    ensures r == -1 || (from <= r && r + |pat| <= |s|)
    decreases |s| - from
  {
    if from + |pat| > |s| then -1
    else if OccursAt(s, pat, from) then from
    else IndexOfFrom(s, pat, from + 1)
  }

  /** The search from `from` finds the first occurrence at or after `from`, or reports none. */
  lemma {:induction false} IndexOfFromSpec(s: string, pat: string, from: nat)
    ensures var r := IndexOfFrom(s, pat, from);
      && (r >= 0 ==> OccursAt(s, pat, r) && forall k :: from <= k < r ==> !OccursAt(s, pat, k))
      && (r < 0 ==> forall k :: from <= k <= |s| ==> !OccursAt(s, pat, k))
    decreases |s| - from
  {
    if from + |pat| <= |s| && !OccursAt(s, pat, from) {
      IndexOfFromSpec(s, pat, from + 1);
    }
  }

  /**
   * `indexOf` gives the first index at which `pat` occurs, and -1 exactly when
   * it occurs nowhere.
   */
  lemma IndexOfSpec(s: string, pat: string)
    ensures var r := IndexOf(s, pat);
      && (r >= 0 ==> OccursAt(s, pat, r) && forall k :: 0 <= k < r ==> !OccursAt(s, pat, k))
      && (r < 0 ==> forall k :: 0 <= k <= |s| ==> !OccursAt(s, pat, k))
  {
    IndexOfFromSpec(s, pat, 0);
  }

  /** `s.lastIndexOf(c)` for a one-character pattern: the last index holding `c`, or -1. */
  function LastIndexOf(s: string, c: char): (r: int)
    ensures -1 <= r < |s|
    ensures r >= 0 ==> s[r] == c
    ensures forall k :: r < k < |s| ==> s[k] != c
  {
    if s == [] then -1
    else
      var t := LastIndexOf(s[1..], c);
      if t >= 0 then t + 1
      else if s[0] == c then 0
      else -1
  }

  /** `lastIndexOf` finds the character exactly when it occurs. */
  lemma LastIndexOfFinds(s: string, c: char)
    ensures LastIndexOf(s, c) >= 0 <==> c in s
  {
    if c in s {
      var k :| 0 <= k < |s| && s[k] == c;
    }
  }

  /** For a one-character pattern, `indexOf` finds it exactly when it occurs. */
  lemma IndexOfFindsChar(s: string, c: char)
    ensures IndexOf(s, [c]) >= 0 <==> c in s
  {
    IndexOfSpec(s, [c]);
    if c in s {
      var k :| 0 <= k < |s| && s[k] == c;
      assert OccursAt(s, [c], k) by {
        assert s[k..k + 1] == [c];
      }
    }
    var r := IndexOf(s, [c]);
    if r >= 0 {
      assert s[r] == s[r..r + 1][0];
    }
  }

  /** A pattern that occurs in `s` has its first character in `s`. */
  lemma IndexOfFindsFirstChar(s: string, pat: string)
    requires |pat| > 0
    ensures IndexOf(s, pat) >= 0 ==> pat[0] in s
  {
    var r := IndexOf(s, pat);
    if r >= 0 {
      assert OccursAt(s, pat, r) by {
        IndexOfSpec(s, pat);
      }
      assert s[r] == s[r..r + |pat|][0];
    }
  }

  /** `indexOf` is pinned down by an occurrence with none before it. */
  lemma IndexOfIs(s: string, pat: string, k: int)
    requires OccursAt(s, pat, k)
    requires forall j :: 0 <= j < k ==> !OccursAt(s, pat, j)
    ensures IndexOf(s, pat) == k
  {
    IndexOfSpec(s, pat);
    var r := IndexOf(s, pat);
    assert r >= 0;
    assert !(r < k) && !(k < r);
  }

  /**
   * `s.replace(pat, rep)` with a string pattern: only the first occurrence of
   * `pat` is replaced; without an occurrence the string is returned unchanged.
   */
  function ReplaceFirst(s: string, pat: string, rep: string): string {
    var i := IndexOf(s, pat);
    if i < 0 then s else s[..i] + rep + s[i + |pat|..]
  }

  /**
   * Without an occurrence `replace` changes nothing; with one, the result is
   * the text before the first occurrence, then `rep`, then the text after it.
   */
  lemma ReplaceFirstSpec(s: string, pat: string, rep: string)
    ensures var i, r := IndexOf(s, pat), ReplaceFirst(s, pat, rep);
      && (i < 0 ==> r == s)
      && (i >= 0 ==>
        && |r| == |s| - |pat| + |rep|
        && r[..i] == s[..i] && r[i..i + |rep|] == rep && r[i + |rep|..] == s[i + |pat|..])
  {
    var i := IndexOf(s, pat);
    if i >= 0 {
      var r := s[..i] + rep + s[i + |pat|..];
      assert r[..i] == s[..i];
      assert r[i..i + |rep|] == rep;
      assert r[i + |rep|..] == s[i + |pat|..];
    }
  }

  /** Deleting a pattern that does not mention `c` keeps every occurrence of `c`. */
  lemma ReplaceFirstKeepsChar(s: string, pat: string, c: char)
    requires c !in pat
    ensures multiset(ReplaceFirst(s, pat, ""))[c] == multiset(s)[c]
  {
    var i := IndexOf(s, pat);
    if i >= 0 {
      assert OccursAt(s, pat, i) by {
        IndexOfSpec(s, pat);
      }
      assert s == s[..i] + pat + s[i + |pat|..];
      assert multiset(s) == multiset(s[..i]) + multiset(pat) + multiset(s[i + |pat|..]);
      assert ReplaceFirst(s, pat, "") == s[..i] + s[i + |pat|..];
      assert multiset(pat)[c] == 0;
    }
  }

  /** `s.split(c)` for a one-character separator. */
  function Split(s: string, c: char): (pieces: seq<string>)
    ensures |pieces| >= 1
    ensures forall i :: 0 <= i < |pieces| ==> c !in pieces[i]
    ensures |pieces[0]| <= |s| && s[..|pieces[0]|] == pieces[0]
    ensures |pieces[0]| == |s| || s[|pieces[0]|] == c
  {
    if s == [] then [[]]
    else
      var rest := Split(s[1..], c);
      if s[0] == c then [[]] + rest
      else [[s[0]] + rest[0]] + rest[1..]
  }

  /** `pieces.join(c)`, the inverse of `Split`. */
  function Join(pieces: seq<string>, c: char): (s: string)
    requires |pieces| >= 1
  {
    if |pieces| == 1 then pieces[0] else pieces[0] + [c] + Join(pieces[1..], c)
  }

  /** Splitting and joining again gives the string back. */
  lemma {:induction false} SplitThenJoin(s: string, c: char)
    ensures Join(Split(s, c), c) == s
  {
    if s != [] {
      SplitThenJoin(s[1..], c);
      var rest := Split(s[1..], c);
      if s[0] != c {
        assert Join([[s[0]] + rest[0]] + rest[1..], c) == [s[0]] + Join(rest, c);
      }
    }
  }

  /** A string without the separator is a single piece. */
  lemma {:induction false} SplitWithoutSeparator(s: string, c: char)
    requires c !in s
    ensures Split(s, c) == [s]
  {
    if s != [] {
      SplitWithoutSeparator(s[1..], c);
      assert [s[0]] + s[1..] == s;
    }
  }

  /**
   * A string holding the separator splits into more than one piece; at the
   * first separator, into the text before it followed by the pieces of the
   * text after it.
   */
  lemma {:induction false} SplitAtSeparator(s: string, c: char, k: nat)
    requires k < |s| && s[k] == c
    ensures |Split(s, c)| > 1
    ensures c !in s[..k] ==> Split(s, c) == [s[..k]] + Split(s[k + 1..], c)
  {
    if k > 0 && s[0] != c {
      SplitAtSeparator(s[1..], c, k - 1);
    }
    if c !in s[..k] {
      assert s == s[..k] + [c] + s[k + 1..];
      SplitPrefix(s[..k], s[k + 1..], c);
    }
  }

  /** Joining pieces free of the separator and splitting again gives the pieces back. */
  lemma {:induction false} SplitJoin(pieces: seq<string>, c: char)
    requires |pieces| >= 1
    requires forall i :: 0 <= i < |pieces| ==> c !in pieces[i]
    ensures Split(Join(pieces, c), c) == pieces
  {
    if |pieces| == 1 {
      SplitWithoutSeparator(pieces[0], c);
    } else {
      SplitJoin(pieces[1..], c);
      SplitPrefix(pieces[0], Join(pieces[1..], c), c);
    }
  }

  /** Splitting a separator-free prefix, a separator and the rest. */
  lemma {:induction false} SplitPrefix(p: string, q: string, c: char)
    requires c !in p
    ensures Split(p + [c] + q, c) == [p] + Split(q, c)
    decreases |p|
  {
    if p == [] {
      assert p + [c] + q == [c] + q;
      assert ([c] + q)[1..] == q;
    } else {
      var s := p + [c] + q;
      assert s[1..] == p[1..] + [c] + q;
      SplitPrefix(p[1..], q, c);
      assert [p[0]] + p[1..] == p;
    }
  }

  /** The last piece of `Split(s, c)` is everything after the last `c`. */
  lemma {:induction false} SplitLast(s: string, c: char)
    ensures var pieces := Split(s, c);
      pieces[|pieces| - 1] == s[LastIndexOf(s, c) + 1..]
  {
    if s != [] {
      SplitLast(s[1..], c);
      var rest := Split(s[1..], c);
      var t := LastIndexOf(s[1..], c);
      if t >= 0 {
        SplitAtSeparator(s[1..], c, t);
        assert LastIndexOf(s, c) == t + 1;
        assert s[t + 2..] == s[1..][t + 1..];
        assert Split(s, c)[|Split(s, c)| - 1] == rest[|rest| - 1];
      } else {
        SplitWithoutSeparator(s[1..], c);
        if s[0] == c {
          assert LastIndexOf(s, c) == 0;
          assert Split(s, c) == [[], s[1..]];
        } else {
          assert LastIndexOf(s, c) == -1;
          assert Split(s, c) == [[s[0]] + s[1..]];
          assert [s[0]] + s[1..] == s;
        }
      }
    }
  }

  /**
   * The first piece of `Split(s, c)` is the only `c`-free prefix of `s` that
   * ends where `s` ends or at a `c`.
   */
  lemma FirstPieceUnique(s: string, c: char, p: string)
    requires p <= s && c !in p
    requires |p| == |s| || s[|p|] == c
    ensures Split(s, c)[0] == p
  {
    if |p| == |s| {
      assert p == s;
      SplitWithoutSeparator(s, c);
    } else {
      assert s == p + [c] + s[|p| + 1..];
      SplitPrefix(p, s[|p| + 1..], c);
    }
  }

  /** The whitespace and line terminators `String.prototype.trim` removes. */
  predicate IsJsWhitespace(ch: char) {
    ch == '\t' || ch == '\n' || ch == '\U{B}' || ch == '\U{C}' || ch == '\r' || ch == ' '
    || ch == '\U{A0}' || ch == '\U{1680}' || ('\U{2000}' <= ch <= '\U{200A}')
    || ch == '\U{2028}' || ch == '\U{2029}' || ch == '\U{202F}' || ch == '\U{205F}'
    || ch == '\U{3000}' || ch == '\U{FEFF}'
  }

  /** Every character of `s` is whitespace (the empty string included). */
  predicate IsBlank(s: string) {
    forall i :: 0 <= i < |s| ==> IsJsWhitespace(s[i])
  }

  /** `s.trimStart()`: drops the leading whitespace. */
  function TrimStart(s: string): string
  {
    if s != [] && IsJsWhitespace(s[0]) then TrimStart(s[1..]) else s
  }

  /** `s.trimEnd()`: drops the trailing whitespace. */
  function TrimEnd(s: string): string
  {
    if s != [] && IsJsWhitespace(s[|s| - 1]) then TrimEnd(s[..|s| - 1]) else s
  }

  /** `TrimStart` keeps a suffix, cuts off only whitespace, and stops at a non-whitespace character. */
  lemma {:induction false} TrimStartSpec(s: string)
    ensures var r := TrimStart(s);
      |r| <= |s| && r == s[|s| - |r|..] && IsBlank(s[..|s| - |r|])
      && (r == [] || !IsJsWhitespace(r[0]))
  {
    if s != [] && IsJsWhitespace(s[0]) {
      TrimStartSpec(s[1..]);
      var r := TrimStart(s[1..]);
      assert s[..|s| - |r|] == [s[0]] + s[1..][..|s| - 1 - |r|];
    }
  }

  /** `TrimEnd` keeps a prefix, cuts off only whitespace, and stops at a non-whitespace character. */
  lemma {:induction false} TrimEndSpec(s: string)
    ensures var r := TrimEnd(s);
      |r| <= |s| && r == s[..|r|] && IsBlank(s[|r|..])
      && (r == [] || !IsJsWhitespace(r[|r| - 1]))
  {
    if s != [] && IsJsWhitespace(s[|s| - 1]) {
      TrimEndSpec(s[..|s| - 1]);
      var r := TrimEnd(s[..|s| - 1]);
      assert s[|r|..] == s[..|s| - 1][|r|..] + [s[|s| - 1]];
    }
  }

  /** `s.trim()`. */
  function Trim(s: string): (r: string)
  {
    TrimEnd(TrimStart(s))
  }

  /**
   * What `Trim` returns: the slice of `s` that starts after the leading
   * whitespace, with only whitespace cut off on either side, and neither
   * starting nor ending with whitespace.
   */
  lemma TrimSlice(s: string)
    ensures var i, r := |s| - |TrimStart(s)|, Trim(s);
      0 <= i && i + |r| <= |s| && r == s[i..i + |r|] && IsBlank(s[..i]) && IsBlank(s[i + |r|..])
      && (r == [] || (!IsJsWhitespace(r[0]) && !IsJsWhitespace(r[|r| - 1])))
  {
    var t := TrimStart(s);
    var r := TrimEnd(t);
    var i := |s| - |t|;
    TrimStartSpec(s);
    TrimEndSpec(t);
    assert t == s[i..];
    assert r == s[i..i + |r|] by {
      assert t[..|r|] == s[i..i + |r|];
    }
    assert s[i + |r|..] == t[|r|..];
    if r != [] {
      assert r[0] == t[0];
    }
  }

  /** `Trim` keeps every occurrence of a character that is not whitespace. */
  lemma TrimKeepsChar(s: string, c: char)
    requires !IsJsWhitespace(c)
    ensures multiset(Trim(s))[c] == multiset(s)[c]
  {
    TrimSlice(s);
    var i, r := |s| - |TrimStart(s)|, Trim(s);
    var pre, post := s[..i], s[i + |r|..];
    assert s == pre + r + post;
    assert multiset(s) == multiset(pre) + multiset(r) + multiset(post);
    assert c !in pre && c !in post;
  }

  /** `Trim` gives the empty string exactly for a blank string. */
  lemma TrimEmptyIffBlank(s: string)
    ensures Trim(s) == [] <==> IsBlank(s)
  {
    var t := TrimStart(s);
    var i := |s| - |t|;
    TrimStartSpec(s);
    TrimEndSpec(t);
    TrimSlice(s);
    if Trim(s) == [] {
      assert IsBlank(t[0..]);
      assert t == [];
      assert s[..i] == s;
    }
  }

  /** Trimming twice is trimming once. */
  lemma TrimIdempotent(s: string)
    ensures Trim(Trim(s)) == Trim(s)
  {
    var r := Trim(s);
    TrimSlice(s);
    if r != [] {
      assert TrimStart(r) == r;
      assert TrimEnd(r) == r;
    }
  }

  /** Blank padding around `s` does not change what `Trim` returns. */
  lemma TrimIgnoresPadding(s: string, pre: string, post: string)
    requires IsBlank(pre) && IsBlank(post)
    ensures Trim(pre + s + post) == Trim(s)
  {
    assert pre + s + post == pre + (s + post);
    TrimStartBlankPrefix(pre, s + post);
    if IsBlank(s) {
      TrimStartBlankPrefix(s, post);
      TrimStartBlankPrefix(post, []);
      TrimStartBlankPrefix(s, []);
      assert s + [] == s && post + [] == post;
    } else {
      TrimStartAppend(s, post);
      TrimEndBlankSuffix(TrimStart(s), post);
    }
  }

  /** `trimStart` skips a blank prefix entirely. */
  lemma {:induction false} TrimStartBlankPrefix(pre: string, x: string)
    requires IsBlank(pre)
    ensures TrimStart(pre + x) == TrimStart(x)
  {
    if pre != [] {
      var w := pre + x;
      assert w[0] == pre[0] && IsJsWhitespace(pre[0]);
      assert TrimStart(w) == TrimStart(w[1..]);
      assert w[1..] == pre[1..] + x;
      TrimStartBlankPrefix(pre[1..], x);
    } else {
      assert pre + x == x;
    }
  }

  /** `trimStart` of a string that is not blank stops inside it. */
  lemma {:induction false} TrimStartAppend(s: string, post: string)
    requires !IsBlank(s)
    ensures TrimStart(s + post) == TrimStart(s) + post
  {
    assert (s + post)[0] == s[0];
    if IsJsWhitespace(s[0]) {
      assert (s + post)[1..] == s[1..] + post;
      assert !IsBlank(s[1..]) by {
        var k :| 0 <= k < |s| && !IsJsWhitespace(s[k]);
        assert s[1..][k - 1] == s[k];
      }
      TrimStartAppend(s[1..], post);
    }
  }

  /** `trimEnd` skips a blank suffix entirely. */
  lemma {:induction false} TrimEndBlankSuffix(x: string, post: string)
    requires IsBlank(post)
    ensures TrimEnd(x + post) == TrimEnd(x)
    decreases |post|
  {
    if post != [] {
      var w := x + post;
      assert w[|w| - 1] == post[|post| - 1] && IsJsWhitespace(post[|post| - 1]);
      assert TrimEnd(w) == TrimEnd(w[..|w| - 1]);
      assert w[..|w| - 1] == x + post[..|post| - 1];
      TrimEndBlankSuffix(x, post[..|post| - 1]);
    } else {
      assert x + post == x;
    }
  }
}
