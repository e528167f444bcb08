/**
 * The string primitives the services are built from, with Rust's meaning:
 * `join`, `str::replace(pat, "")`, `split_whitespace`, `trim`, and the
 * decimal rendering `format!("{}", n)` of a non-negative integer.
 */
module Text {

  /** Rust's `char::is_whitespace`: the Unicode White_Space property, by code point. */
  predicate IsWhitespace(c: char) {
    var n := c as int;
    (9 <= n <= 13) || n == 0x20 || n == 0x85 || n == 0xA0 || n == 0x1680
    || (0x2000 <= n <= 0x200A) || n == 0x2028 || n == 0x2029 || n == 0x202F
    || n == 0x205F || n == 0x3000
  }

  predicate NoWhitespace(s: string) {
    forall i :: 0 <= i < |s| ==> !IsWhitespace(s[i])
  }

  predicate AllWhitespace(s: string) {
    forall i :: 0 <= i < |s| ==> IsWhitespace(s[i])
  }

  /** A word as `split_whitespace` yields it: non-empty and free of whitespace. */
  predicate IsWord(w: string) {
    w != [] && NoWhitespace(w)
  }

  predicate AllWords(words: seq<string>) {
    forall k :: 0 <= k < |words| ==> IsWord(words[k])
  }

  /** Neither end of `s` is whitespace (vacuous for the empty string). */
  predicate SolidEnds(s: string) {
    s == [] || (!IsWhitespace(s[0]) && !IsWhitespace(s[|s| - 1]))
  }

  /**
   * The shape of a whitespace-normalised string: no whitespace at either end,
   * no whitespace other than ' ', and never two spaces in a row.
   */
  predicate Normalized(t: string) {
    && SolidEnds(t)
    && (forall i :: 0 <= i < |t| && IsWhitespace(t[i]) ==> t[i] == ' ')
    && (forall i :: 0 <= i < |t| - 1 && t[i] == ' ' ==> t[i + 1] != ' ')
  }

  /** `parts.join(sep)` on a slice of strings. */
  function Join(parts: seq<string>, sep: string): string {
    if |parts| == 0 then ""
    else if |parts| == 1 then parts[0]
    else parts[0] + sep + Join(parts[1..], sep)
  }

  /** `str::trim_start`: drops the leading whitespace and nothing else. */
  function TrimStart(s: string): (r: string)
    ensures |r| <= |s| && r == s[|s| - |r|..]
    ensures AllWhitespace(s[..|s| - |r|])
    ensures r == [] || !IsWhitespace(r[0])
    decreases |s|
  {
    if s != [] && IsWhitespace(s[0]) then TrimStart(s[1..]) else s
  }

  /** `str::trim_end`: drops the trailing whitespace and nothing else. */
  function TrimEnd(s: string): (r: string)
    ensures |r| <= |s| && r == s[..|r|]
    ensures AllWhitespace(s[|r|..])
    ensures r == [] || !IsWhitespace(r[|r| - 1])
    decreases |s|
  {
    if s != [] && IsWhitespace(s[|s| - 1]) then
      var r := TrimEnd(s[..|s| - 1]);
      assert s[..|s| - 1][..|r|] == s[..|r|];
      assert s[|r|..] == s[..|s| - 1][|r|..] + [s[|s| - 1]];
      r
    else s
  }

  /** `str::trim`. */
  function Trim(s: string): (r: string)
    ensures SolidEnds(r)
    ensures r == [] ==> AllWhitespace(s)
  {
    TrimEnd(TrimStart(s))
  }

  /** The longest whitespace-free prefix of `s`. */
  function LeadingWord(s: string): (w: string)
    ensures |w| <= |s| && w == s[..|w|]
    ensures NoWhitespace(w)
    ensures |w| == |s| || IsWhitespace(s[|w|])
  {
    if s == [] || IsWhitespace(s[0]) then "" else [s[0]] + LeadingWord(s[1..])
  }

  /** `str::split_whitespace`, collected: the maximal whitespace-free runs, in order. */
  function SplitWhitespace(s: string): (words: seq<string>)
    ensures AllWords(words)
    decreases |s|
  {
    if s == [] then []
    else if IsWhitespace(s[0]) then SplitWhitespace(s[1..])
    else
      var w := LeadingWord(s);
      [w] + SplitWhitespace(s[|w|..])
  }

  /**
   * `s.split(sep).next()`: the part of `s` before the first `sep`, or all of
   * `s` when `sep` does not occur (the iterator always yields a first item).
   */
  function UntilFirst(s: string, sep: char): (r: string)
    ensures |r| <= |s| && r == s[..|r|]
    ensures sep !in r
    ensures |r| == |s| || s[|r|] == sep
  {
    if s == [] || s[0] == sep then "" else [s[0]] + UntilFirst(s[1..], sep)
  }

  /** `s.split_whitespace().collect::<Vec<_>>().join(" ").trim()`. */
  function Normalize(s: string): string {
    Trim(Join(SplitWhitespace(s), " "))
  }

  /**
   * `s.replace(pat, "")`: one left-to-right scan that deletes every leftmost,
   * non-overlapping occurrence of `pat`; the output is not scanned again. An
   * empty pattern leaves `s` unchanged.
   */
  function RemoveAll(s: string, pat: string): (r: string)
    ensures |r| <= |s|
    decreases |s|
  {
    if pat == [] || |s| < |pat| then s
    else if s[..|pat|] == pat then RemoveAll(s[|pat|..], pat)
    else [s[0]] + RemoveAll(s[1..], pat)
  }

  /** `pat` occurs in `s` at offset `i`. */
  predicate OccursAt(s: string, pat: string, i: nat) {
    i + |pat| <= |s| && s[i..i + |pat|] == pat
  }

  /** `pat` occurs in `s` at no offset below `bound`. */
  predicate NoOccurrenceBefore(s: string, pat: string, bound: nat) {
    forall i: nat :: i < bound ==> !OccursAt(s, pat, i)
  }

  function DigitChar(d: nat): (c: char)
    requires d < 10
    ensures '0' <= c <= '9'
  {
    (48 + d) as char
  }

  /** `format!("{}", n)` for a non-negative integer: its decimal digits, most significant first. */
  function NatToString(n: nat): (s: string)
    ensures s != []
    ensures forall i :: 0 <= i < |s| ==> '0' <= s[i] <= '9'
    ensures (n < 10) == (|s| == 1)
  {
    if n < 10 then [DigitChar(n)] else NatToString(n / 10) + [DigitChar(n % 10)]
  }

  // ---------------------------------------------------------------------------
  // Trim

  /** A string whose ends are already solid is its own trim. */
  lemma TrimSolid(s: string)
    requires SolidEnds(s)
    ensures Trim(s) == s
  {
  }

  /**
   * `trim` removes exactly the whitespace padding around a solid middle and
   * leaves the middle, inner whitespace included, untouched.
   */
  lemma {:induction false} TrimExact(pre: string, mid: string, post: string)
    requires AllWhitespace(pre) && AllWhitespace(post) && SolidEnds(mid)
    ensures Trim(pre + mid + post) == mid
  {
    if mid == [] {
      assert pre + mid + post == pre + post;
      AllWhitespaceTrimsAway(pre + post);
    } else {
      assert pre + mid + post == pre + (mid + post);
      TrimStartPadding(pre, mid + post);
      assert TrimStart(pre + mid + post) == mid + post;
      TrimEndPadding(mid, post);
    }
  }

  lemma {:induction false} AllWhitespaceTrimsAway(s: string)
    requires AllWhitespace(s)
    ensures TrimStart(s) == [] && Trim(s) == []
    decreases |s|
  {
    if s != [] {
      AllWhitespaceTrimsAway(s[1..]);
    }
  }

  lemma {:induction false} TrimStartPadding(pre: string, s: string)
    requires AllWhitespace(pre) && (s == [] || !IsWhitespace(s[0]))
    ensures TrimStart(pre + s) == s
    decreases |pre|
  {
    if pre != [] {
      assert (pre + s)[1..] == pre[1..] + s;
      TrimStartPadding(pre[1..], s);
    }
  }

  lemma {:induction false} TrimEndPadding(s: string, post: string)
    requires AllWhitespace(post) && (s == [] || !IsWhitespace(s[|s| - 1]))
    ensures TrimEnd(s + post) == s
    decreases |post|
  {
    if post != [] {
      var p := post[..|post| - 1];
      assert (s + post)[..|s + post| - 1] == s + p;
      TrimEndPadding(s, p);
    }
  }

  // ---------------------------------------------------------------------------
  // split_whitespace and join

  lemma {:induction false} LeadingWordOf(w: string, t: string)
    requires NoWhitespace(w) && (t == [] || IsWhitespace(t[0]))
    ensures LeadingWord(w + t) == w
    decreases |w|
  {
    if w != [] {
      assert (w + t)[1..] == w[1..] + t;
      LeadingWordOf(w[1..], t);
    } else {
      assert w + t == t;
    }
  }

  /** A word ends at the first whitespace, so appending whitespace-led text does not change it. */
  lemma {:induction false} LeadingWordPrefix(a: string, t: string)
    requires t == [] || IsWhitespace(t[0])
    ensures LeadingWord(a + t) == LeadingWord(a)
    decreases |a|
  {
    if a == [] {
      assert a + t == t;
    } else {
      assert (a + t)[0] == a[0];
      assert (a + t)[1..] == a[1..] + t;
      LeadingWordPrefix(a[1..], t);
    }
  }

  /** Splitting at a whitespace character splits the two sides independently. */
  lemma {:induction false} SplitAround(a: string, c: char, b: string)
    requires IsWhitespace(c)
    ensures SplitWhitespace(a + [c] + b) == SplitWhitespace(a) + SplitWhitespace(b)
    decreases |a|
  {
    var s := a + [c] + b;
    if a == [] {
      assert s == [c] + b && s[1..] == b;
    } else if IsWhitespace(a[0]) {
      assert s[0] == a[0] && s[1..] == a[1..] + [c] + b;
      SplitAround(a[1..], c, b);
    } else {
      assert s[0] == a[0];
      var w := LeadingWord(a);
      assert s == a + ([c] + b);
      LeadingWordPrefix(a, [c] + b);
      assert LeadingWord(s) == w;
      assert s[|w|..] == a[|w|..] + [c] + b;
      assert SplitWhitespace(s) == [w] + SplitWhitespace(s[|w|..]);
      assert SplitWhitespace(a) == [w] + SplitWhitespace(a[|w|..]);
      SplitAround(a[|w|..], c, b);
    }
  }

  /** The words of every part, in order. */
  function WordsOfEach(parts: seq<string>): seq<string> {
    if parts == [] then [] else SplitWhitespace(parts[0]) + WordsOfEach(parts[1..])
  }

  /** Two strings glued by a run of two spaces split into the words of each. */
  lemma SplitAcrossSpaces(x: string, y: string)
    ensures SplitWhitespace((x + " ") + (" " + y)) == SplitWhitespace(x) + SplitWhitespace(y)
  {
    assert (x + " ") + (" " + y) == x + [' '] + (" " + y);
    SplitAround(x, ' ', " " + y);
    assert (" " + y)[1..] == y;
  }

  /** Whitespace alone holds no words. */
  lemma {:induction false} SplitAllWhitespace(s: string)
    requires AllWhitespace(s)
    ensures SplitWhitespace(s) == []
    decreases |s|
  {
    if s != [] {
      SplitAllWhitespace(s[1..]);
    }
  }

  /** Joining with a space never fuses words of neighbouring parts. */
  lemma {:induction false} SplitJoinParts(parts: seq<string>)
    ensures SplitWhitespace(Join(parts, " ")) == WordsOfEach(parts)
  {
    if |parts| == 1 {
      assert WordsOfEach(parts[1..]) == [];
    } else if |parts| > 1 {
      var rest := Join(parts[1..], " ");
      assert parts[0] + " " + rest == parts[0] + [' '] + rest;
      SplitAround(parts[0], ' ', rest);
      SplitJoinParts(parts[1..]);
    }
  }

  /** Joining two non-empty lists puts one separator between them. */
  lemma {:induction false} JoinAppend(xs: seq<string>, ys: seq<string>, sep: string)
    requires xs != [] && ys != []
    ensures Join(xs + ys, sep) == Join(xs, sep) + sep + Join(ys, sep)
  {
    if |xs| == 1 {
      assert (xs + ys)[1..] == ys;
    } else {
      assert (xs + ys)[1..] == xs[1..] + ys;
      JoinAppend(xs[1..], ys, sep);
    }
  }

  /** Joining around one middle part: the parts before, a separator, the middle, a separator, the parts after. */
  lemma JoinAround(xs: seq<string>, m: string, ys: seq<string>, sep: string)
    requires xs != [] && ys != []
    ensures Join(xs + [m] + ys, sep) == (Join(xs, sep) + sep) + m + (sep + Join(ys, sep))
  {
    assert xs + [m] + ys == xs + ([m] + ys);
    JoinAppend(xs, [m] + ys, sep);
    JoinAppend([m], ys, sep);
    assert Join([m], sep) == m;
  }

  /** A pattern whose first character never appears in the scanned region cannot occur there. */
  lemma NoOccurrenceWithoutFirstChar(s: string, pat: string, bound: nat)
    requires pat != [] && bound <= |s| && pat[0] !in s[..bound]
    ensures NoOccurrenceBefore(s, pat, bound)
  {
    forall i: nat | i < bound ensures !OccursAt(s, pat, i) {
      assert s[..bound][i] == s[i];
      if i + |pat| <= |s| {
        assert s[i..i + |pat|][0] == s[i] != pat[0];
      }
    }
  }

  /** A character found in no part and not in the separator is not in the joined text. */
  lemma {:induction false} JoinAvoids(parts: seq<string>, sep: string, c: char)
    requires c !in sep && forall k :: 0 <= k < |parts| ==> c !in parts[k]
    ensures c !in Join(parts, sep)
  {
    if |parts| > 1 {
      JoinAvoids(parts[1..], sep, c);
    }
  }

  /** A non-empty run of visible ASCII characters is a word. */
  lemma VisibleWord(w: string)
    requires w != [] && forall i :: 0 <= i < |w| ==> '!' <= w[i] <= '~'
    ensures IsWord(w)
  {
  }

  /** Splitting words joined by single spaces gives the words back. */
  lemma {:induction false} SplitJoin(words: seq<string>)
    requires AllWords(words)
    ensures SplitWhitespace(Join(words, " ")) == words
  {
    if |words| == 1 {
      var w := words[0];
      LeadingWordOf(w, "");
      assert w + "" == w;
      assert w[|w|..] == [];
    } else if |words| > 1 {
      var w, rest := words[0], Join(words[1..], " ");
      var s := w + " " + rest;
      LeadingWordOf(w, " " + rest);
      assert s == w + (" " + rest);
      assert s[|w|..] == " " + rest;
      assert (" " + rest)[1..] == rest;
      SplitJoin(words[1..]);
      assert words == [w] + words[1..];
    }
  }

  /** Words joined by single spaces form a normalised string. */
  lemma {:induction false} JoinWordsNormalized(words: seq<string>)
    requires AllWords(words)
    ensures Normalized(Join(words, " "))
    ensures Join(words, " ") != [] <==> words != []
  {
    if |words| > 1 {
      var w, rest := words[0], Join(words[1..], " ");
      JoinWordsNormalized(words[1..]);
      var s := w + " " + rest;
      assert s[0] == w[0];
      assert s[|s| - 1] == rest[|rest| - 1];
      assert forall i :: 0 <= i < |w| ==> s[i] == w[i];
      assert forall i :: |w| < i < |s| ==> s[i] == rest[i - |w| - 1];
      assert s[|w|] == ' ' && s[|w| + 1] == rest[0];
    }
  }

  /** A normalised string's suffix after one of its spaces is normalised and starts solid. */
  lemma NormalizedAfterSpace(t: string, k: nat)
    requires Normalized(t) && k < |t| - 1 && t[k] == ' '
    ensures Normalized(t[k + 1..]) && t[k + 1..] != [] && !IsWhitespace(t[k + 1])
  {
    var rest := t[k + 1..];
    assert rest[0] == t[k + 1] && rest[|rest| - 1] == t[|t| - 1];
    assert forall i :: 0 <= i < |rest| ==> rest[i] == t[k + 1 + i];
  }

  /** Splitting a string that starts with a word takes that word, then splits the rest. */
  lemma SplitAfterLeadingWord(t: string)
    requires t != [] && !IsWhitespace(t[0])
    ensures SplitWhitespace(t) == [LeadingWord(t)] + SplitWhitespace(t[|LeadingWord(t)|..])
  {
  }

  /** A string is its prefix, the character at `k`, and its suffix. */
  lemma CutAt(t: string, k: nat)
    requires k < |t|
    ensures t == t[..k] + [t[k]] + t[k + 1..]
  {
  }

  /** Every normalised string is its own words joined by single spaces. */
  lemma {:induction false} JoinSplitNormalized(t: string)
    requires Normalized(t)
    ensures Join(SplitWhitespace(t), " ") == t
    decreases |t|
  {
    if t != [] {
      var w := LeadingWord(t);
      SplitAfterLeadingWord(t);
      assert |w| >= 1 by { assert !IsWhitespace(t[0]); }
      if |w| == |t| {
        assert t[|w|..] == [];
      } else {
        assert t[|w|] == ' ';
        assert |w| + 1 < |t| by { assert !IsWhitespace(t[|t| - 1]); }
        var rest := t[|w| + 1..];
        NormalizedAfterSpace(t, |w|);
        assert t[|w|..][1..] == rest;
        SplitAfterLeadingWord(rest);
        JoinSplitNormalized(rest);
        var tail := SplitWhitespace(rest);
        assert SplitWhitespace(t[|w|..]) == tail;
        assert ([w] + tail)[1..] == tail;
        CutAt(t, |w|);
      }
    }
  }

  // ---------------------------------------------------------------------------
  // Normalize

  /** The closing `trim` of the normalisation chain never removes anything. */
  lemma NormalizeIsJoinedWords(s: string)
    ensures Normalize(s) == Join(SplitWhitespace(s), " ")
  {
    JoinWordsNormalized(SplitWhitespace(s));
    TrimSolid(Join(SplitWhitespace(s), " "));
  }

  /** The result of the normalisation chain is normalised and keeps exactly the words of its input. */
  lemma NormalizeSound(s: string)
    ensures Normalized(Normalize(s))
    ensures SplitWhitespace(Normalize(s)) == SplitWhitespace(s)
  {
    NormalizeIsJoinedWords(s);
    JoinWordsNormalized(SplitWhitespace(s));
    SplitJoin(SplitWhitespace(s));
  }

  /** Normalising twice is normalising once. */
  lemma NormalizeIdempotent(s: string)
    ensures Normalize(Normalize(s)) == Normalize(s)
  {
    NormalizeSound(s);
    NormalizeIsJoinedWords(Normalize(s));
    NormalizeIsJoinedWords(s);
  }

  /** The normalised strings are exactly the fixed points of the normalisation chain. */
  lemma NormalizeFixedPoints(t: string)
    ensures Normalize(t) == t <==> Normalized(t)
  {
    if Normalized(t) {
      JoinSplitNormalized(t);
      NormalizeIsJoinedWords(t);
    } else {
      NormalizeSound(t);
    }
  }

  // ---------------------------------------------------------------------------
  // replace(pat, "")

  /** Where `pat` does not start at offset 0, the scan keeps the first character and moves on. */
  lemma RemoveAllKeep(s: string, pat: string)
    requires pat != [] && |pat| <= |s| && !OccursAt(s, pat, 0)
    ensures RemoveAll(s, pat) == [s[0]] + RemoveAll(s[1..], pat)
  {
  }

  /** Where `pat` starts at offset 0, the scan deletes it and resumes right after it. */
  lemma RemoveAllDrop(s: string, pat: string)
    requires pat != [] && OccursAt(s, pat, 0)
    ensures RemoveAll(s, pat) == RemoveAll(s[|pat|..], pat)
  {
  }

  /** Dropping the first character shifts every offset free of `pat` down by one. */
  lemma NoOccurrenceShift(s: string, pat: string, bound: nat)
    requires s != [] && 1 <= bound && NoOccurrenceBefore(s, pat, bound)
    ensures NoOccurrenceBefore(s[1..], pat, bound - 1)
  {
    forall i: nat | i < bound - 1 ensures !OccursAt(s[1..], pat, i) {
      assert !OccursAt(s, pat, i + 1);
      if i + |pat| <= |s[1..]| {
        assert s[1..][i..i + |pat|] == s[i + 1..i + 1 + |pat|];
      }
    }
  }

  /** Dropping the first character of a concatenation drops it from its first part. */
  lemma DropFirst(a: string, b: string)
    requires a != []
    ensures (a + b)[0] == a[0] && (a + b)[1..] == a[1..] + b
  {
  }

  /** Where `pat` does not occur, deleting it changes nothing. */
  lemma {:induction false} RemoveAllAbsent(s: string, pat: string)
    requires pat != [] && NoOccurrenceBefore(s, pat, |s|)
    ensures RemoveAll(s, pat) == s
    decreases |s|
  {
    if |s| >= |pat| {
      assert !OccursAt(s, pat, 0);
      RemoveAllKeep(s, pat);
      NoOccurrenceShift(s, pat, |s|);
      RemoveAllAbsent(s[1..], pat);
      CutAt(s, 0);
    }
  }

  /**
   * The first (leftmost) occurrence of `pat` is deleted, the text before it
   * is kept, and the scan resumes right after it.
   */
  lemma {:induction false} RemoveAllFirst(pre: string, pat: string, post: string)
    requires pat != [] && NoOccurrenceBefore(pre + pat + post, pat, |pre|)
    ensures RemoveAll(pre + pat + post, pat) == pre + RemoveAll(post, pat)
    decreases |pre|
  {
    var s := pre + pat + post;
    if pre == [] {
      assert s == pat + post;
      assert s[..|pat|] == pat;
      RemoveAllDrop(s, pat);
      assert s[|pat|..] == post;
    } else {
      assert !OccursAt(s, pat, 0);
      RemoveAllKeep(s, pat);
      NoOccurrenceShift(s, pat, |pre|);
      DropFirst(pre, pat + post);
      assert pre + pat + post == pre + (pat + post);
      assert pre[1..] + (pat + post) == pre[1..] + pat + post;
      assert s[1..] == pre[1..] + pat + post;
      RemoveAllFirst(pre[1..], pat, post);
      calc {
        RemoveAll(s, pat);
        [s[0]] + RemoveAll(s[1..], pat);
        [pre[0]] + RemoveAll(pre[1..] + pat + post, pat);
        [pre[0]] + (pre[1..] + RemoveAll(post, pat));
        { CutAt(pre, 0); }
        pre + RemoveAll(post, pat);
      }
    }
  }

  /** A pattern that occurs exactly once, between `pre` and `post`, is deleted and nothing else is. */
  lemma RemoveAllOnce(pre: string, pat: string, post: string)
    requires pat != [] && NoOccurrenceBefore(pre + pat + post, pat, |pre|)
    requires NoOccurrenceBefore(post, pat, |post|)
    ensures RemoveAll(pre + pat + post, pat) == pre + post
  {
    RemoveAllFirst(pre, pat, post);
    RemoveAllAbsent(post, pat);
  }

  /**
   * When the pattern's first character does not occur before it, its first
   * occurrence is the one after `pre`: deleting leaves `pre` and scans on.
   */
  lemma RemoveAllFirstAvoiding(pre: string, pat: string, post: string)
    requires pat != [] && pat[0] !in pre
    ensures RemoveAll(pre + pat + post, pat) == pre + RemoveAll(post, pat)
  {
    var s := pre + pat + post;
    assert s[..|pre|] == pre;
    NoOccurrenceWithoutFirstChar(s, pat, |pre|);
    RemoveAllFirst(pre, pat, post);
  }

  /** A pattern whose first character occurs nowhere around it is deleted and nothing else is. */
  lemma RemoveAllOnceAvoiding(pre: string, pat: string, post: string)
    requires pat != [] && pat[0] !in pre && pat[0] !in post
    ensures RemoveAll(pre + pat + post, pat) == pre + post
  {
    RemoveAllFirstAvoiding(pre, pat, post);
    assert post[..|post|] == post;
    NoOccurrenceWithoutFirstChar(post, pat, |post|);
    RemoveAllAbsent(post, pat);
  }

  // ---------------------------------------------------------------------------
  // Decimal rendering

  /** `split(sep).next()` stops at the first separator: everything before it, nothing after. */
  lemma UntilFirstOf(a: string, sep: char, b: string)
    requires sep !in a
    ensures UntilFirst(a + [sep] + b, sep) == a
  {
    var s := a + [sep] + b;
    var r := UntilFirst(s, sep);
    assert s[|a|] == sep;
    assert forall i :: 0 <= i < |a| ==> s[i] == a[i] && s[i] != sep;
    assert forall i :: 0 <= i < |r| ==> r[i] == s[i] && r[i] != sep;
    assert |r| == |a|;
    assert s[..|a|] == a;
  }

  /** The value a decimal digit character stands for; anything else reads as 0. */
  function DigitValue(c: char): (d: nat)
    ensures d < 10
  {
    if '0' <= c <= '9' then c as int - 48 else 0
  }

  /** Reads a string of decimal digits, most significant first: the reference reader for `NatToString`. */
  function DecimalValue(s: string): nat {
    if s == [] then 0 else DecimalValue(s[..|s| - 1]) * 10 + DigitValue(s[|s| - 1])
  }

  /**
   * `NatToString` writes `n` in decimal: reading its digits back gives `n`,
   * and there is no leading zero (the first digit is '0' only for 0 itself).
   */
  lemma {:induction false} NatToStringValue(n: nat)
    ensures DecimalValue(NatToString(n)) == n
    ensures (NatToString(n)[0] == '0') == (n == 0)
  {
    var s := NatToString(n);
    if n < 10 {
      assert s == [DigitChar(n)];
      assert s[..0] == [];
    } else {
      NatToStringValue(n / 10);
      assert s == NatToString(n / 10) + [DigitChar(n % 10)];
      assert s[..|s| - 1] == NatToString(n / 10);
      assert DigitValue(s[|s| - 1]) == n % 10;
      assert s[0] == NatToString(n / 10)[0];
    }
  }

  /** Distinct numbers are written differently. */
  lemma NatToStringInjective(a: nat, b: nat)
    requires NatToString(a) == NatToString(b)
    ensures a == b
  {
    NatToStringValue(a);
    NatToStringValue(b);
  }
}
