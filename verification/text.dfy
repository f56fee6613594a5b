/**
  The string operations the scraper takes from Python, with Python's meaning:
  `str.strip`, `re.sub(r'\s+', ' ', s)`, `str.split(sep)`, `sep.join(parts)`,
  `str.replace`, `str.lower`, `str.startswith`, `str.endswith` and `pat in s`.
  Strings are sequences of Unicode scalar values, as Python's `str` is.
 */
module Text {
  import opened Wrappers

  /** Python's `str.isspace` for one character; `re`'s `\s` uses the same table. */
  predicate IsSpace(c: char) {
    || c == ' '
    || ('\t' <= c <= '\r')
    || ('\U{001C}' <= c <= '\U{001F}')
    || c == '\U{0085}' || c == '\U{00A0}' || c == '\U{1680}'
    || ('\U{2000}' <= c <= '\U{200A}')
    || c == '\U{2028}' || c == '\U{2029}' || c == '\U{202F}' || c == '\U{205F}' || c == '\U{3000}'
  }

  /** Whitespace-normal text: no whitespace but the plain space, and never two spaces in a row. */
  predicate Tidy(s: string) {
    && (forall i :: 0 <= i < |s| && IsSpace(s[i]) ==> s[i] == ' ')
    && (forall i :: 0 <= i < |s| - 1 && s[i] == ' ' ==> s[i + 1] != ' ')
  }

  predicate NoLeadingSpace(s: string) {
    |s| == 0 || s[0] != ' '
  }

  predicate StartsWith(s: string, prefix: string) {
    |prefix| <= |s| && s[..|prefix|] == prefix
  }

  predicate EndsWith(s: string, suffix: string) {
    |suffix| <= |s| && s[|s| - |suffix|..] == suffix
  }

  /** `pat` occurs in `s` starting at index `k`. */
  predicate MatchAt(s: string, pat: string, k: nat) {
    k + |pat| <= |s| && s[k..k + |pat|] == pat
  }

  /** Python's `pat in s`. */
  predicate Contains(s: string, pat: string) {
    exists k: nat :: k <= |s| && MatchAt(s, pat, k)
  }

  /** Drops leading whitespace (`str.lstrip()`). */
  function TrimLeft(s: string): (r: string)
    ensures |r| <= |s| && r == s[|s| - |r|..]
    ensures forall i :: 0 <= i < |s| - |r| ==> IsSpace(s[i])
    ensures |r| > 0 ==> !IsSpace(r[0])
    ensures |s| > 0 && IsSpace(s[0]) ==> |r| < |s|
  {
    s[SkipSpaces(s, 0)..]
  }

  /** The index of the first non-whitespace character of `s` at or after `k`, or `|s|`. */
  function SkipSpaces(s: string, k: nat): (n: nat)
    requires k <= |s|
    ensures k <= n <= |s|
    ensures forall i :: k <= i < n ==> IsSpace(s[i])
    ensures n < |s| ==> !IsSpace(s[n])
    decreases |s| - k
  {
    if k < |s| && IsSpace(s[k]) then SkipSpaces(s, k + 1) else k
  }

  /** Drops trailing whitespace (`str.rstrip()`). */
  function TrimRight(s: string): (r: string)
    ensures |r| <= |s| && r == s[..|r|]
    ensures forall i :: |r| <= i < |s| ==> IsSpace(s[i])
    ensures |r| > 0 ==> !IsSpace(r[|r| - 1])
  {
    if |s| > 0 && IsSpace(s[|s| - 1]) then TrimRight(s[..|s| - 1]) else s
  }

  /** Python's `str.strip()`: the text between the first and the last non-whitespace character. */
  function Strip(s: string): (r: string)
    ensures |r| <= |s|
    ensures |r| > 0 ==> !IsSpace(r[0]) && !IsSpace(r[|r| - 1])
  {
    var l := TrimLeft(s);
    var r := TrimRight(l);
    assert r != "" ==> l[0] == s[|s| - |l|];
    r
  }

  /** `[t.strip() for t in texts]`. */
  function StripAll(texts: seq<string>): (r: seq<string>)
    ensures |r| == |texts|
    ensures forall k :: 0 <= k < |r| ==> r[k] == Strip(texts[k])
  {
    seq(|texts|, k requires 0 <= k < |texts| => Strip(texts[k]))
  }

  /** `str.strip()` leaves nothing exactly when the text is all whitespace. */
  lemma StripEmpty(s: string)
    ensures Strip(s) == "" <==> forall i :: 0 <= i < |s| ==> IsSpace(s[i])
  {
    var l := TrimLeft(s);
    assert l != "" ==> l[0] == s[|s| - |l|];
  }

  /** `re.sub(r'\s+', ' ', s)`: every maximal run of whitespace becomes one space. */
  function Collapse(s: string): (r: string)
    ensures Tidy(r)
    ensures |r| == 0 <==> |s| == 0
    ensures |s| > 0 ==> (r[0] == ' ' <==> IsSpace(s[0]))
    ensures |s| > 0 ==> (r[|r| - 1] == ' ' <==> IsSpace(s[|s| - 1]))
    decreases |s|
  {
    if |s| == 0 then ""
    else if IsSpace(s[0]) then
      var rest := TrimLeft(s);
      var c := Collapse(rest);
      assert |rest| > 0 ==> rest[|rest| - 1] == s[|s| - 1];
      " " + c
    else
      var c := Collapse(s[1..]);
      [s[0]] + c
  }

  /** Text that is already whitespace-normal is left alone by `Collapse`; with `Collapse`'s
      own contract this makes it idempotent. */
  lemma {:induction false} CollapseFixesTidy(s: string)
    requires Tidy(s)
    ensures Collapse(s) == s
    decreases |s|
  {
    if |s| > 0 {
      TidySlice(s, 1, |s|);
      CollapseFixesTidy(s[1..]);
      CollapseHead(s);
      assert s == [s[0]] + s[1..];
    }
  }

  /** In a tidy text, `Collapse` keeps the first character and collapses the rest. */
  lemma CollapseHead(s: string)
    requires Tidy(s) && |s| > 0
    ensures Collapse(s) == [s[0]] + Collapse(s[1..])
  {
    if IsSpace(s[0]) {
      assert |s| > 1 ==> s[1] != ' ';
      assert |s| > 1 ==> !IsSpace(s[1]);
      assert TrimLeft(s[1..]) == s[1..];
      assert TrimLeft(s) == s[1..];
    }
  }

  lemma CollapseIdempotent(s: string)
    ensures Collapse(Collapse(s)) == Collapse(s)
  {
    CollapseFixesTidy(Collapse(s));
  }

  /** All of `s` is whitespace. */
  predicate Blank(s: string) {
    forall i :: 0 <= i < |s| ==> IsSpace(s[i])
  }

  /** Leading whitespace of `a + b` stops inside `a` unless `a` is blank. */
  lemma TrimLeftAt(s: string, n: nat)
    requires n <= |s| && (forall i :: 0 <= i < n ==> IsSpace(s[i]))
    requires n == |s| || !IsSpace(s[n])
    ensures TrimLeft(s) == s[n..]
  {
  }

  lemma TrimLeftConcat(a: string, b: string)
    ensures !Blank(a) ==> TrimLeft(a + b) == TrimLeft(a) + b
    ensures Blank(a) ==> TrimLeft(a + b) == TrimLeft(b)
  {
    if !Blank(a) {
      var n := |a| - |TrimLeft(a)|;
      assert n < |a|;
      assert (a + b)[n] == TrimLeft(a)[0];
      TrimLeftAt(a + b, n);
      DropConcat(a, b, n);
    } else {
      var n := |a| + (|b| - |TrimLeft(b)|);
      forall i | 0 <= i < n
        ensures IsSpace((a + b)[i])
      {
        if i >= |a| {
          assert (a + b)[i] == b[i - |a|];
        }
      }
      if n < |a| + |b| {
        assert (a + b)[n] == TrimLeft(b)[0];
      }
      TrimLeftAt(a + b, n);
      DropConcat(a, b, n);
    }
  }

  /** A non-empty run of whitespace becomes one space. */
  lemma CollapseBlank(s: string)
    requires |s| > 0 && Blank(s)
    ensures Collapse(s) == " "
  {
  }

  /** Text without whitespace is kept as it is. */
  lemma CollapseWord(s: string)
    requires forall i :: 0 <= i < |s| ==> !IsSpace(s[i])
    ensures Collapse(s) == s
  {
    CollapseFixesTidy(s);
  }

  /** One step of `Collapse` at a non-whitespace head, and at a whitespace head. */
  lemma CollapseStep(s: string)
    requires |s| > 0
    ensures !IsSpace(s[0]) ==> Collapse(s) == [s[0]] + Collapse(s[1..])
    ensures IsSpace(s[0]) ==> Collapse(s) == " " + Collapse(TrimLeft(s))
  {
  }

  /** `Collapse` works piecewise on a text cut anywhere outside a whitespace run. With
      `CollapseBlank` and `CollapseWord` this fixes its output completely: every
      non-whitespace character survives in order and each maximal whitespace run becomes one
      space. */
  lemma {:induction false} CollapseConcat(a: string, b: string)
    requires |a| == 0 || |b| == 0 || !IsSpace(a[|a| - 1]) || !IsSpace(b[0])
    ensures Collapse(a + b) == Collapse(a) + Collapse(b)
    decreases |a|, 1
  {
    if |a| == 0 {
      assert a + b == b;
    } else if |b| == 0 {
      assert a + b == a;
    } else if !IsSpace(a[0]) {
      CollapseConcatWordHead(a, b);
    } else {
      CollapseConcatSpaceHead(a, b);
    }
  }

  lemma {:induction false} CollapseConcatWordHead(a: string, b: string)
    requires |a| > 0 && |b| > 0 && !IsSpace(a[0])
    requires !IsSpace(a[|a| - 1]) || !IsSpace(b[0])
    ensures Collapse(a + b) == Collapse(a) + Collapse(b)
    decreases |a|, 0
  {
    var tail := a[1..];
    assert Collapse(a + b) == [a[0]] + Collapse(tail + b) by {
      assert (a + b)[0] == a[0];
      DropConcat(a, b, 1);
      CollapseStep(a + b);
    }
    assert Collapse(a) == [a[0]] + Collapse(tail) by {
      CollapseStep(a);
    }
    assert Collapse(tail + b) == Collapse(tail) + Collapse(b) by {
      assert |tail| > 0 ==> tail[|tail| - 1] == a[|a| - 1];
      CollapseConcat(tail, b);
    }
    Regroup([a[0]], Collapse(tail + b), Collapse(tail), Collapse(b), Collapse(a + b), Collapse(a));
  }

  lemma {:induction false} CollapseConcatSpaceHead(a: string, b: string)
    requires |a| > 0 && |b| > 0 && IsSpace(a[0])
    requires !IsSpace(a[|a| - 1]) || !IsSpace(b[0])
    ensures Collapse(a + b) == Collapse(a) + Collapse(b)
    decreases |a|, 0
  {
    assert (a + b)[0] == a[0];
    TrimLeftConcat(a, b);
    var t := TrimLeft(a);
    if Blank(a) {
      assert !IsSpace(b[0]);
      assert TrimLeft(b) == b;
      CollapseBlank(a);
      CollapseStep(a + b);
    } else {
      assert t != "" by {
        var i :| 0 <= i < |a| && !IsSpace(a[i]);
        assert i >= |a| - |t|;
      }
      assert Collapse(a + b) == " " + Collapse(t + b) by {
        CollapseStep(a + b);
      }
      assert Collapse(a) == " " + Collapse(t) by {
        CollapseStep(a);
      }
      assert Collapse(t + b) == Collapse(t) + Collapse(b) by {
        assert t[|t| - 1] == a[|a| - 1];
        CollapseConcat(t, b);
      }
      Regroup(" ", Collapse(t + b), Collapse(t), Collapse(b), Collapse(a + b), Collapse(a));
    }
  }

  lemma DropConcat<T>(a: seq<T>, b: seq<T>, n: nat)
    requires n <= |a| + |b|
    ensures n <= |a| ==> (a + b)[n..] == a[n..] + b
    ensures n >= |a| ==> (a + b)[n..] == b[n - |a|..]
  {
  }

  lemma Regroup<T>(x: seq<T>, p: seq<T>, q: seq<T>, r: seq<T>, whole: seq<T>, left: seq<T>)
    requires whole == x + p && p == q + r && left == x + q
    ensures whole == left + r
  {
  }

  /** The first index at or after `k` where `pat` occurs (Python's `str.find(pat, k)`). */
  function IndexFrom(s: string, pat: string, k: nat): (r: Option<nat>)
    requires k <= |s|
    ensures r.Some? ==> k <= r.value && MatchAt(s, pat, r.value)
    ensures r.Some? ==> forall j: nat :: k <= j < r.value ==> !MatchAt(s, pat, j)
    ensures r.None? ==> forall j: nat :: k <= j ==> !MatchAt(s, pat, j)
    decreases |s| - k
  {
    if MatchAt(s, pat, k) then Some(k)
    else if k == |s| then None
    else IndexFrom(s, pat, k + 1)
  }

  lemma NoMatchInPrefix(s: string, pat: string, i: nat)
    requires |pat| > 0 && i <= |s|
    requires forall j: nat :: j < i ==> !MatchAt(s, pat, j)
    ensures !Contains(s[..i], pat)
  {
    forall k: nat | k <= i && MatchAt(s[..i], pat, k)
      ensures false
    {
      assert s[..i][k..k + |pat|] == s[k..k + |pat|];
      assert MatchAt(s, pat, k);
    }
  }

  /** Python's `s.split(sep)` for a non-empty separator: the pieces between the leftmost
      non-overlapping occurrences of `sep`. */
  function Split(s: string, sep: string): (r: seq<string>)
    requires |sep| > 0
    ensures |r| > 0
    ensures forall i :: 0 <= i < |r| ==> !Contains(r[i], sep)
    ensures StartsWith(s, r[0])
    decreases |s|
  {
    match IndexFrom(s, sep, 0)
    case None =>
      NoMatchInPrefix(s, sep, |s|);
      [s]
    case Some(i) =>
      NoMatchInPrefix(s, sep, i);
      [s[..i]] + Split(s[i + |sep|..], sep)
  }

  /** Python's `sep.join(parts)`. */
  function Join(sep: string, parts: seq<string>): string {
    if |parts| == 0 then ""
    else if |parts| == 1 then parts[0]
    else parts[0] + sep + Join(sep, parts[1..])
  }

  /** Python's `s.replace(old, new)` for a non-empty `old`. */
  function ReplaceAll(s: string, target: string, replacement: string): string
    requires |target| > 0
  {
    Join(replacement, Split(s, target))
  }

  /** Python's `str.lower()` on ASCII letters. */
  function LowerChar(c: char): char {
    if 'A' <= c <= 'Z' then (c as int + 32) as char else c
  }

  function Lower(s: string): string {
    seq(|s|, i requires 0 <= i < |s| => LowerChar(s[i]))
  }

  /** Lower-casing works piecewise around a character that is not a capital. */
  lemma LowerAround(a: string, c: char, b: string)
    requires !('A' <= c <= 'Z')
    ensures Lower(a + [c] + b) == Lower(a) + [c] + Lower(b)
  {
    var l, r := Lower(a + [c] + b), Lower(a) + [c] + Lower(b);
    assert |l| == |r|;
    forall k | 0 <= k < |l|
      ensures l[k] == r[k]
    {
      if k < |a| {
        assert (a + [c] + b)[k] == a[k];
      } else if k > |a| {
        assert (a + [c] + b)[k] == b[k - |a| - 1];
      }
    }
  }

  /** A suffix without `c` ends `a + [c] + b` exactly when it ends `b`. */
  lemma EndsWithAround(a: string, c: char, b: string, e: string)
    requires c !in e
    ensures EndsWith(a + [c] + b, e) <==> EndsWith(b, e)
  {
    var s := a + [c] + b;
    if |e| <= |b| {
      assert s[|s| - |e|..] == b[|b| - |e|..];
    } else if |e| <= |s| {
      assert s[|s| - |e|..][|e| - |b| - 1] == c;
    }
  }

  /** A pattern without `c` occurs in `a + [c] + b` exactly when it occurs in `a` or in `b`. */
  lemma ContainsAround(a: string, c: char, b: string, p: string)
    requires c !in p
    ensures Contains(a + [c] + b, p) <==> Contains(a, p) || Contains(b, p)
  {
    var s := a + [c] + b;
    if Contains(s, p) {
      var k: nat :| k <= |s| && MatchAt(s, p, k);
      if k + |p| <= |a| {
        MatchInHead(a, [c] + b, p, k);
        assert a + ([c] + b) == s;
      } else {
        MatchAcross(a, c, b, p, k);
        MatchInTail(a + [c], b, p, k - |a| - 1);
      }
    }
    if Contains(a, p) {
      var k: nat :| k <= |a| && MatchAt(a, p, k);
      MatchInHead(a, [c] + b, p, k);
      assert a + ([c] + b) == s;
    }
    if Contains(b, p) {
      var k: nat :| k <= |b| && MatchAt(b, p, k);
      MatchInTail(a + [c], b, p, k);
    }
  }

  /** A window inside `head` matches in `head + tail` exactly when it matches in `head`. */
  lemma MatchInHead(head: string, tail: string, p: string, k: nat)
    requires k + |p| <= |head|
    ensures MatchAt(head + tail, p, k) <==> MatchAt(head, p, k)
  {
    assert (head + tail)[k..k + |p|] == head[k..k + |p|];
  }

  /** A window of `tail` matches in `head + tail`, shifted by `|head|`, exactly when it
      matches in `tail`. */
  lemma MatchInTail(head: string, tail: string, p: string, k: nat)
    ensures MatchAt(head + tail, p, |head| + k) <==> MatchAt(tail, p, k)
  {
    if k + |p| <= |tail| {
      assert (head + tail)[|head| + k..|head| + k + |p|] == tail[k..k + |p|];
    }
  }

  /** A match of a pattern without `c` in `a + [c] + b` that does not lie inside `a` lies
      inside `b`. */
  lemma MatchAcross(a: string, c: char, b: string, p: string, k: nat)
    requires c !in p && MatchAt(a + [c] + b, p, k) && k + |p| > |a|
    ensures k > |a|
  {
    if k <= |a| {
      InWindow(a + [c] + b, k, |p|, |a|);
      assert false;
    }
  }

  /** Each element of a window of `s` is in the window. */
  lemma InWindow(s: string, k: nat, n: nat, m: nat)
    requires k <= m < k + n <= |s|
    ensures s[m] in s[k..k + n]
  {
    assert s[k..k + n][m - k] == s[m];
  }

  /** A prefix stays a prefix, and a suffix a suffix, of a longer concatenation. */
  lemma PrefixOfConcat(a: string, b: string, c: string)
    requires StartsWith(a, c)
    ensures StartsWith(a + b, c)
  {
    assert (a + b)[..|c|] == a[..|c|];
  }

  lemma SuffixOfConcat(a: string, b: string, c: string)
    requires EndsWith(b, c)
    ensures EndsWith(a + b, c)
  {
    assert (a + b)[|a + b| - |c|..] == b[|b| - |c|..];
  }

  lemma SuffixTrans(a: string, b: string, c: string)
    requires EndsWith(a, b) && EndsWith(b, c)
    ensures EndsWith(a, c)
  {
    assert a[|a| - |c|..] == a[|a| - |b|..][|b| - |c|..];
  }

  lemma ConcatEnds(a: string, b: string)
    ensures StartsWith(a + b, a) && EndsWith(a + b, b)
  {
    assert (a + b)[..|a|] == a;
    assert (a + b)[|a|..] == b;
  }

  /** A text that contains the separator splits into at least two pieces. */
  lemma SplitContains(s: string, sep: string, k: nat)
    requires |sep| > 0 && MatchAt(s, sep, k)
    ensures |Split(s, sep)| >= 2
  {
    match IndexFrom(s, sep, 0)
    case None =>
      assert false;
    case Some(i) =>
  }

  /** Replacing a text that does not occur changes nothing. */
  lemma ReplaceAbsent(s: string, target: string, replacement: string)
    requires |target| > 0 && !Contains(s, target)
    ensures ReplaceAll(s, target, replacement) == s
  {
    match IndexFrom(s, target, 0)
    case None =>
    case Some(i) =>
      assert false;
  }

  /** No proper suffix of `sep` is also a prefix of it, so an occurrence of `sep` cannot
      start inside the text that precedes another occurrence. */
  predicate Unbordered(sep: string) {
    forall m :: 0 < m < |sep| ==> sep[m..] != sep[..|sep| - m]
  }

  lemma JoinCons(sep: string, a: string, rest: seq<string>)
    requires |rest| > 0
    ensures Join(sep, [a] + rest) == a + sep + Join(sep, rest)
  {
    assert ([a] + rest)[1..] == rest;
  }

  /** Splitting and re-joining with the same separator gives the text back. */
  lemma {:induction false} JoinSplit(s: string, sep: string)
    requires |sep| > 0
    ensures Join(sep, Split(s, sep)) == s
    decreases |s|
  {
    match IndexFrom(s, sep, 0)
    case None =>
    case Some(i) =>
      var rest := s[i + |sep|..];
      JoinSplit(rest, sep);
      JoinCons(sep, s[..i], Split(rest, sep));
      assert s == s[..i] + s[i..i + |sep|] + rest;
  }

  /** In `a + sep + b`, when `a` holds no `sep` and `sep` is unbordered, the first
      occurrence of `sep` is the one right after `a`. */
  lemma FirstMatchAfter(a: string, sep: string, b: string)
    requires |sep| > 0 && Unbordered(sep) && !Contains(a, sep)
    ensures IndexFrom(a + sep + b, sep, 0) == Some(|a|)
  {
    var s := a + sep + b;
    assert s[|a|..|a| + |sep|] == sep;
    assert MatchAt(s, sep, |a|);
    forall j: nat | j < |a|
      ensures !MatchAt(s, sep, j)
    {
      if j + |sep| <= |a| {
        assert s[j..j + |sep|] == a[j..j + |sep|];
        assert !MatchAt(a, sep, j);
      } else {
        // the window at j straddles the end of a: its tail is a head of sep
        var m := |a| - j;
        var w := s[j..j + |sep|];
        assert w[m..] == sep[..|sep| - m];
        assert sep[m..] != sep[..|sep| - m];
        assert w != sep;
      }
    }
  }

  /** Joining pieces that hold no (unbordered) separator and splitting again gives the
      pieces back. */
  lemma {:induction false} SplitJoin(parts: seq<string>, sep: string)
    requires |sep| > 0 && Unbordered(sep)
    requires |parts| > 0
    requires forall i :: 0 <= i < |parts| ==> !Contains(parts[i], sep)
    ensures Split(Join(sep, parts), sep) == parts
    decreases |parts|
  {
    if |parts| == 1 {
      var a := parts[0];
      match IndexFrom(a, sep, 0)
      case None =>
      case Some(i) =>
        assert false;
    } else {
      var a, rest := parts[0], parts[1..];
      assert parts == [a] + rest;
      JoinCons(sep, a, rest);
      var j := Join(sep, rest);
      FirstMatchAfter(a, sep, j);
      var s := a + sep + j;
      assert s[..|a|] == a;
      assert s[|a| + |sep|..] == j;
      SplitJoin(rest, sep);
    }
  }

  lemma TidySlice(s: string, i: nat, j: nat)
    requires i <= j <= |s| && Tidy(s)
    ensures Tidy(s[i..j])
  {
    var t := s[i..j];
    forall k | 0 <= k < |t| - 1 && t[k] == ' '
      ensures t[k + 1] != ' '
    {
      assert t[k] == s[i + k] && t[k + 1] == s[i + k + 1];
    }
  }

  lemma TidyConcat(a: string, b: string)
    requires Tidy(a) && Tidy(b)
    requires |a| == 0 || a[|a| - 1] != ' ' || NoLeadingSpace(b)
    ensures Tidy(a + b)
  {
    var s := a + b;
    forall k | 0 <= k < |s| - 1 && s[k] == ' '
      ensures s[k + 1] != ' '
    {
      if k + 1 < |a| {
        assert s[k] == a[k] && s[k + 1] == a[k + 1];
      } else if k + 1 == |a| {
        assert s[k] == a[|a| - 1] && s[k + 1] == b[0];
      } else {
        assert s[k] == b[k - |a|] && s[k + 1] == b[k - |a| + 1];
      }
    }
  }
}
