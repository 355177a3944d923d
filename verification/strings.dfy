/** Option values and the handful of C string primitives the shortcut code
    relies on (strchr, strstr, g_strsplit, g_strjoinv, g_strdelimit, printf of
    integers), stated over `string` = `seq<char>`. */
module Strings {

  datatype Option<T> = None | Some(value: T)

  /** Number of occurrences of `c` in `s`. */
  function Count(s: string, c: char): nat
  {
    if |s| == 0 then 0 else (if s[0] == c then 1 else 0) + Count(s[1..], c)
  }

  lemma {:induction false} CountAppend(a: string, b: string, c: char)
    ensures Count(a + b, c) == Count(a, c) + Count(b, c)
  {
    if |a| == 0 {
      assert a + b == b;
    } else {
      assert (a + b)[1..] == a[1..] + b;
      CountAppend(a[1..], b, c);
    }
  }

  lemma {:induction false} CountZero(s: string, c: char)
    ensures Count(s, c) == 0 <==> c !in s
  {
    if |s| > 0 {
      CountZero(s[1..], c);
      assert s == [s[0]] + s[1..];
    }
  }

  /** Occurrences of `c` in `s` beyond its first one at `i`. */
  lemma CountAfterFirst(s: string, c: char, i: nat)
    requires i < |s| && s[i] == c && c !in s[..i]
    ensures Count(s, c) == 1 + Count(s[i + 1..], c)
  {
    assert s == s[..i] + ([c] + s[i + 1..]);
    CountAppend(s[..i], [c] + s[i + 1..], c);
    assert ([c] + s[i + 1..])[1..] == s[i + 1..];
    CountZero(s[..i], c);
  }

  /** First index of `c` in `s` (C's strchr). */
  function IndexOf(s: string, c: char): (r: Option<nat>)
    ensures r.Some? ==> r.value < |s| && s[r.value] == c && c !in s[..r.value]
    ensures r.None? <==> c !in s
  {
    if |s| == 0 then None
    else if s[0] == c then Some(0)
    else match IndexOf(s[1..], c)
      case None => None
      case Some(i) =>
        assert s[..i + 1] == [s[0]] + s[1..][..i];
        Some(i + 1)
  }

  lemma IndexOfAppend(a: string, c: char, b: string)
    requires c !in a
    ensures IndexOf(a + [c] + b, c) == Some(|a|)
  {
    var s := a + [c] + b;
    assert s[|a|] == c;
    assert s[..|a|] == a;
  }

  /** Index of the occurrence of `c` that has exactly `k` earlier occurrences. */
  function NthIndexOf(s: string, c: char, k: nat): (r: Option<nat>)
    ensures r.Some? ==> r.value < |s| && s[r.value] == c && Count(s[..r.value], c) == k
    ensures r.None? <==> Count(s, c) <= k
  {
    if |s| == 0 then None
    else if s[0] == c && k == 0 then
      assert s[..0] == [];
      Some(0)
    else
      var k' := if s[0] == c then k - 1 else k;
      match NthIndexOf(s[1..], c, k')
      case None => None
      case Some(i) =>
        assert s[..i + 1] == [s[0]] + s[1..][..i];
        CountAppend([s[0]], s[1..][..i], c);
        Some(i + 1)
  }

  /** The occurrence with no earlier ones is the first one. */
  lemma NthIndexOfFirst(s: string, c: char)
    ensures NthIndexOf(s, c, 0) == IndexOf(s, c)
  {
    match NthIndexOf(s, c, 0)
    case None =>
      CountZero(s, c);
    case Some(i) =>
      CountZero(s[..i], c);
  }

  /** Every `a` in `s` replaced by `b` (g_strdelimit with a one-character set). */
  function Replace(s: string, a: char, b: char): (r: string)
    ensures |r| == |s|
    ensures forall i :: 0 <= i < |s| ==> r[i] == (if s[i] == a then b else s[i])
  {
    if |s| == 0 then [] else [if s[0] == a then b else s[0]] + Replace(s[1..], a, b)
  }

  /** After the replacement no `a` is left. */
  lemma ReplaceRemoves(s: string, a: char, b: char)
    requires a != b
    ensures a !in Replace(s, a, b)
  {
    var r := Replace(s, a, b);
    forall i | 0 <= i < |r| ensures r[i] != a {
    }
  }

  lemma ReplaceAbsent(s: string, a: char, b: char)
    requires a !in s
    ensures Replace(s, a, b) == s
  {
  }

  lemma ReplaceAppend(x: string, y: string, a: char, b: char)
    ensures Replace(x + y, a, b) == Replace(x, a, b) + Replace(y, a, b)
  {
    var l, r := Replace(x + y, a, b), Replace(x, a, b) + Replace(y, a, b);
    assert forall i :: 0 <= i < |x + y| ==> l[i] == r[i];
  }

  /** `s` split on every `c`. */
  function Split(s: string, c: char): (r: seq<string>)
    ensures |r| == Count(s, c) + 1
    ensures forall i :: 0 <= i < |r| ==> c !in r[i]
    decreases |s|
  {
    match IndexOf(s, c)
    case None =>
      CountZero(s, c);
      [s]
    case Some(i) =>
      CountAfterFirst(s, c, i);
      [s[..i]] + Split(s[i + 1..], c)
  }

  /** `parts` joined with separator `c` (g_strjoinv). */
  function Join(parts: seq<string>, c: char): string
  {
    if |parts| == 0 then ""
    else if |parts| == 1 then parts[0]
    else parts[0] + [c] + Join(parts[1..], c)
  }

  lemma {:induction false} JoinSplit(s: string, c: char)
    ensures Join(Split(s, c), c) == s
    decreases |s|
  {
    match IndexOf(s, c)
    case None =>
    case Some(i) =>
      JoinSplit(s[i + 1..], c);
      assert s == s[..i] + [c] + s[i + 1..];
  }

  /** Splitting on `a` and joining with `b` replaces every `a` by `b`. */
  lemma {:induction false} JoinSplitReplace(s: string, a: char, b: char)
    ensures Join(Split(s, a), b) == Replace(s, a, b)
    decreases |s|
  {
    match IndexOf(s, a)
    case None =>
      ReplaceAbsent(s, a, b);
    case Some(i) =>
      var head, rest := s[..i], s[i + 1..];
      SplitAtFirst(s, a, i);
      JoinCons(head, Split(rest, a), b);
      JoinSplitReplace(rest, a, b);
      ReplaceAtFirst(s, a, b, i);
  }

  lemma JoinCons(x: string, ys: seq<string>, c: char)
    requires |ys| > 0
    ensures Join([x] + ys, c) == x + [c] + Join(ys, c)
  {
    assert ([x] + ys)[1..] == ys;
  }

  lemma ReplaceAtFirst(s: string, a: char, b: char, i: nat)
    requires i < |s| && s[i] == a && a !in s[..i]
    ensures Replace(s, a, b) == s[..i] + [b] + Replace(s[i + 1..], a, b)
  {
    var head, rest := s[..i], s[i + 1..];
    assert s == (head + [a]) + rest;
    ReplaceAppend(head + [a], rest, a, b);
    ReplaceAppend(head, [a], a, b);
    ReplaceAbsent(head, a, b);
    assert Replace([a], a, b) == [b];
  }

  lemma SplitAtFirst(s: string, c: char, i: nat)
    requires IndexOf(s, c) == Some(i)
    ensures Split(s, c) == [s[..i]] + Split(s[i + 1..], c)
  {
  }

  /** A piece of a split holds no character the whole string lacks. */
  lemma {:induction false} PieceOfSplit(s: string, c: char, i: nat, d: char)
    requires d !in s && i < |Split(s, c)|
    ensures d !in Split(s, c)[i]
    decreases |s|
  {
    match IndexOf(s, c)
    case None =>
    case Some(j) =>
      SplitAtFirst(s, c, j);
      assert s == s[..j] + [c] + s[j + 1..];
      if i > 0 {
        assert d !in s[j + 1..];
        PieceOfSplit(s[j + 1..], c, i - 1, d);
      } else {
        assert d !in s[..j];
      }
  }

  lemma {:induction false} SplitAppend(a: string, c: char, b: string)
    ensures Split(a + [c] + b, c) == Split(a, c) + Split(b, c)
    decreases |a|
  {
    if c !in a {
      SplitAppendNoSep(a, c, b);
    } else {
      var i := IndexOf(a, c).value;
      var rest := a[i + 1..];
      SplitAppendStep(a, c, b, i);
      SplitAppend(rest, c, b);
      ConsAssoc(a[..i], Split(rest, c), Split(b, c));
    }
  }

  lemma ConsAssoc<T>(x: T, ys: seq<T>, zs: seq<T>)
    ensures [x] + (ys + zs) == ([x] + ys) + zs
  {
  }

  lemma SplitAppendNoSep(a: string, c: char, b: string)
    requires c !in a
    ensures Split(a + [c] + b, c) == [a] + Split(b, c)
  {
    var s := a + [c] + b;
    IndexOfAppend(a, c, b);
    assert s[|a| + 1..] == b;
    assert s[..|a|] == a;
    SplitAtFirst(s, c, |a|);
  }

  lemma SplitAppendStep(a: string, c: char, b: string, i: nat)
    requires IndexOf(a, c) == Some(i)
    ensures Split(a + [c] + b, c) == [a[..i]] + Split(a[i + 1..] + [c] + b, c)
    ensures Split(a, c) == [a[..i]] + Split(a[i + 1..], c)
  {
    var s := a + [c] + b;
    var rest := a[i + 1..] + [c] + b;
    assert s == a[..i] + [c] + rest;
    IndexOfAppend(a[..i], c, rest);
    assert s[..i] == a[..i];
    assert s[i + 1..] == rest;
    SplitAtFirst(s, c, i);
    SplitAtFirst(a, c, i);
  }

  lemma {:induction false} SplitJoin(parts: seq<string>, c: char)
    requires |parts| > 0
    requires forall i :: 0 <= i < |parts| ==> c !in parts[i]
    ensures Split(Join(parts, c), c) == parts
  {
    if |parts| > 1 {
      SplitJoin(parts[1..], c);
      SplitAppend(parts[0], c, Join(parts[1..], c));
    }
  }

  /** g_strsplit(s, c, n): at most `n` pieces; the last piece keeps the rest
      of the string, later separators included. */
  function SplitMax(s: string, c: char, n: nat): (r: seq<string>)
    requires n >= 1
    ensures 1 <= |r| <= n
    ensures forall i :: 0 <= i < |r| - 1 ==> c !in r[i]
    decreases n
  {
    if n == 1 then [s]
    else match IndexOf(s, c)
      case None => [s]
      case Some(i) => [s[..i]] + SplitMax(s[i + 1..], c, n - 1)
  }

  /** Joining the bounded split with the separator gives back the string. */
  lemma {:induction false} JoinSplitMax(s: string, c: char, n: nat)
    requires n >= 1
    ensures Join(SplitMax(s, c, n), c) == s
    decreases n
  {
    if n > 1 && c in s {
      var i := IndexOf(s, c).value;
      JoinSplitMax(s[i + 1..], c, n - 1);
      JoinSplitMaxGlue(s, c, n, i);
    }
  }

  lemma JoinSplitMaxGlue(s: string, c: char, n: nat, i: nat)
    requires n > 1 && IndexOf(s, c) == Some(i)
    requires Join(SplitMax(s[i + 1..], c, n - 1), c) == s[i + 1..]
    ensures Join(SplitMax(s, c, n), c) == s
  {
    var head, tail := s[..i], s[i + 1..];
    var rest := SplitMax(tail, c, n - 1);
    SplitMaxStep(s, c, n, i);
    JoinCons(head, rest, c);
    GlueAround(s, i, head, tail, c);
  }

  /** A character missing from `s` is missing from every piece of a bounded
      split of it. */
  lemma {:induction false} SplitMaxAvoids(s: string, c: char, n: nat, d: char)
    requires n >= 1 && d !in s
    ensures forall k :: 0 <= k < |SplitMax(s, c, n)| ==> d !in SplitMax(s, c, n)[k]
    decreases n
  {
    if n > 1 && c in s {
      var i := IndexOf(s, c).value;
      SplitMaxAvoids(s[i + 1..], c, n - 1, d);
      SplitMaxStep(s, c, n, i);
    }
  }

  lemma GlueAround(s: string, i: nat, head: string, tail: string, c: char)
    requires i < |s| && s[i] == c && head == s[..i] && tail == s[i + 1..]
    ensures head + [c] + tail == s
  {
  }

  /** A first piece free of the separator comes off as one piece. */
  lemma SplitMaxPrefix(w: string, q: string, c: char, n: nat)
    requires c !in w && n >= 1
    ensures SplitMax(w + [c] + q, c, n + 1) == [w] + SplitMax(q, c, n)
  {
    var s := w + [c] + q;
    IndexOfAppend(w, c, q);
    assert s[..|w|] == w && s[|w| + 1..] == q;
  }

  /** With fewer separators than the bound allows, the bounded split is the full split. */
  lemma {:induction false} SplitMaxFull(s: string, c: char, n: nat)
    requires n >= 1 && Count(s, c) < n
    ensures SplitMax(s, c, n) == Split(s, c)
    decreases n
  {
    if c !in s {
      SplitNoSep(s, c, n);
    } else {
      var i := IndexOf(s, c).value;
      CountAfterFirst(s, c, i);
      SplitMaxFull(s[i + 1..], c, n - 1);
      SplitGlue(s, c, n, i);
    }
  }

  lemma SplitGlue(s: string, c: char, n: nat, i: nat)
    requires n > 1 && IndexOf(s, c) == Some(i)
    requires SplitMax(s[i + 1..], c, n - 1) == Split(s[i + 1..], c)
    ensures SplitMax(s, c, n) == Split(s, c)
  {
    SplitMaxStep(s, c, n, i);
    SplitAtFirst(s, c, i);
  }

  lemma SplitNoSep(s: string, c: char, n: nat)
    requires n >= 1 && IndexOf(s, c).None?
    ensures SplitMax(s, c, n) == [s] && Split(s, c) == [s]
  {
  }

  lemma SplitMaxStep(s: string, c: char, n: nat, i: nat)
    requires n > 1 && IndexOf(s, c) == Some(i)
    ensures SplitMax(s, c, n) == [s[..i]] + SplitMax(s[i + 1..], c, n - 1)
  {
  }

  /** strstr(s, t) != NULL. */
  predicate Contains(s: string, t: string)
  {
    exists i :: 0 <= i <= |s| - |t| && OccursAt(s, t, i)
  }

  predicate OccursAt(s: string, t: string, i: nat)
  {
    i + |t| <= |s| && s[i..i + |t|] == t
  }

  predicate EndsWith(s: string, c: char)
  {
    |s| > 0 && s[|s| - 1] == c
  }

  function DigitChar(d: nat): char
    requires d < 10
  {
    "0123456789"[d]
  }

  function DigitValue(ch: char): nat
  {
    if '0' <= ch <= '9' then (ch - '0') as nat else 0
  }

  /** Decimal text of `n` (printf "%zu"). */
  function NatToString(n: nat): (r: string)
    ensures |r| >= 1
    ensures forall i :: 0 <= i < |r| ==> '0' <= r[i] <= '9'
  {
    if n < 10 then [DigitChar(n)] else NatToString(n / 10) + [DigitChar(n % 10)]
  }

  /** Value of a string of decimal digits. */
  function ParseNat(s: string): nat
  {
    if |s| == 0 then 0 else 10 * ParseNat(s[..|s| - 1]) + DigitValue(s[|s| - 1])
  }

  lemma {:induction false} ParseNatToString(n: nat)
    ensures ParseNat(NatToString(n)) == n
  {
    if n >= 10 {
      var s := NatToString(n);
      assert s[..|s| - 1] == NatToString(n / 10);
      ParseNatToString(n / 10);
    }
  }

  /** Decimal text of `n` with a leading '-' when negative (printf "%d"). */
  function IntToString(n: int): (r: string)
    ensures |r| >= 1
    ensures (r[0] == '-') <==> n < 0
  {
    if n < 0 then "-" + NatToString(-n) else NatToString(n)
  }
}
