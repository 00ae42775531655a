/** The Kotlin string operations the plugin relies on, on `seq<char>`. */
module Text {
  import opened Wrappers

  /** Kotlin `startsWith`. */
  predicate StartsWith(s: string, prefix: string)
  {
    |prefix| <= |s| && s[..|prefix|] == prefix
  }

  /** Kotlin `endsWith`. */
  predicate EndsWith(s: string, suffix: string)
  {
    |suffix| <= |s| && s[|s| - |suffix|..] == suffix
  }

  /** Kotlin `contains` on strings: `t` occurs somewhere in `s`. */
  predicate Contains(s: string, t: string)
    decreases |s|
  {
    StartsWith(s, t) || (|s| > 0 && Contains(s[1..], t))
  }

  lemma {:induction false} ContainsShift(s: string, t: string, k: nat)
    requires k <= |s| && Contains(s[k..], t)
    ensures Contains(s, t)
    decreases k
  {
    if k > 0 {
      assert s[1..][k - 1..] == s[k..];
      ContainsShift(s[1..], t, k - 1);
    }
  }

  /** A window of `s` equal to `t` is an occurrence of `t` in `s`. */
  lemma {:induction false} ContainsAt(s: string, t: string, k: nat)
    requires k + |t| <= |s| && s[k..k + |t|] == t
    ensures Contains(s, t)
  {
    assert StartsWith(s[k..], t) by {
      assert s[k..][..|t|] == s[k..k + |t|];
    }
    ContainsShift(s, t, k);
  }

  /** The first index of `c` in `s` (Kotlin `indexOf`, with -1 as `None`). */
  function IndexOf(s: string, c: char): (r: Option<nat>)
    ensures r.Some? ==> r.value < |s| && s[r.value] == c && c !in s[..r.value]
    ensures r.None? ==> c !in s
    decreases |s|
  {
    if |s| == 0 then None
    else if s[0] == c then Some(0)
    else match IndexOf(s[1..], c)
      case None => None
      case Some(i) => assert s[..i + 1] == [s[0]] + s[1..][..i]; Some(i + 1)
  }

  /** The last index of `c` in `s` (Kotlin `lastIndexOf`, with -1 as `None`). */
  function LastIndexOf(s: string, c: char): (r: Option<nat>)
    ensures r.Some? ==> r.value < |s| && s[r.value] == c && c !in s[r.value + 1..]
    ensures r.None? ==> c !in s
    decreases |s|
  {
    if |s| == 0 then None
    else if s[|s| - 1] == c then Some(|s| - 1)
    else
      var r := LastIndexOf(s[..|s| - 1], c);
      assert r.Some? ==> s[r.value + 1..] == s[..|s| - 1][r.value + 1..] + [s[|s| - 1]];
      assert s == s[..|s| - 1] + [s[|s| - 1]];
      r
  }

  /** `joinToString(sep)` / `StringUtil.join`: `parts` with the separator `sep` between neighbours. */
  function Join(parts: seq<string>, sep: string): string
  {
    if |parts| == 0 then ""
    else if |parts| == 1 then parts[0]
    else parts[0] + sep + Join(parts[1..], sep)
  }

  /**
   * Kotlin `split(d)` with a one-character delimiter and no limit: every
   * piece between two delimiters, empty pieces included.
   */
  function Split(s: string, d: char): (r: seq<string>)
    ensures |r| >= 1
    decreases |s|
  {
    if |s| == 0 then [""]
    else
      var rest := Split(s[1..], d);
      if s[0] == d then [""] + rest else [[s[0]] + rest[0]] + rest[1..]
  }

  /** Splitting and re-joining on the same delimiter gives the text back. */
  lemma {:induction false} JoinSplit(s: string, d: char)
    ensures Join(Split(s, d), [d]) == s
    decreases |s|
  {
    if |s| > 0 {
      var rest := Split(s[1..], d);
      JoinSplit(s[1..], d);
      if s[0] == d {
        assert Split(s, d) == [""] + rest;
        assert ([""] + rest)[1..] == rest;
        assert s == [d] + s[1..];
      } else {
        var r := Split(s, d);
        assert r == [[s[0]] + rest[0]] + rest[1..];
        if |rest| == 1 {
          assert s == [s[0]] + rest[0];
        } else {
          assert r[1..] == rest[1..];
          assert Join(rest, [d]) == rest[0] + [d] + Join(rest[1..], [d]);
          assert s == [s[0]] + s[1..];
        }
      }
    }
  }

  /** No piece of a split contains the delimiter. */
  lemma {:induction false} SplitPiecesLackDelimiter(s: string, d: char)
    ensures forall i :: 0 <= i < |Split(s, d)| ==> d !in Split(s, d)[i]
    decreases |s|
  {
    if |s| > 0 {
      SplitPiecesLackDelimiter(s[1..], d);
    }
  }

  /**
   * Kotlin `split(d, limit = n)`: at most `n` pieces, the last of which
   * holds the rest of the text, delimiters included.
   */
  function SplitAtMost(s: string, d: char, n: nat): (r: seq<string>)
    requires n >= 1
    ensures 1 <= |r| <= n
    decreases n
  {
    if n == 1 then [s]
    else match IndexOf(s, d)
      case None => [s]
      case Some(i) => [s[..i]] + SplitAtMost(s[i + 1..], d, n - 1)
  }

  /** Splitting with a limit loses nothing: re-joining gives the text back. */
  lemma {:induction false} JoinSplitAtMost(s: string, d: char, n: nat)
    requires n >= 1
    ensures Join(SplitAtMost(s, d, n), [d]) == s
    decreases n
  {
    var idx := IndexOf(s, d);
    if n > 1 && idx.Some? {
      var i := idx.value;
      JoinSplitAtMost(s[i + 1..], d, n - 1);
      SplitAtMostStep(s, d, n, i);
      CutAt(s, i, d);
    }
  }

  /** Past the first delimiter, a limited split re-joins as the head, the delimiter and the re-joined rest. */
  lemma SplitAtMostStep(s: string, d: char, n: nat, i: nat)
    requires n > 1 && IndexOf(s, d) == Some(i)
    ensures Join(SplitAtMost(s, d, n), [d]) == s[..i] + [d] + Join(SplitAtMost(s[i + 1..], d, n - 1), [d])
  {
    var rest := SplitAtMost(s[i + 1..], d, n - 1);
    assert SplitAtMost(s, d, n) == [s[..i]] + rest;
    JoinCons(s[..i], rest, [d]);
  }

  /** A text is the part before position `i`, the delimiter at `i`, and the part after. */
  lemma CutAt(s: string, i: nat, d: char)
    requires i < |s| && s[i] == d
    ensures s == s[..i] + [d] + s[i + 1..]
  {
  }

  /** Joining a part in front of at least one more puts the separator after it. */
  lemma JoinCons(head: string, rest: seq<string>, sep: string)
    requires |rest| >= 1
    ensures Join([head] + rest, sep) == head + sep + Join(rest, sep)
  {
    assert ([head] + rest)[1..] == rest;
  }

  /** Joining one more part at the end puts the separator before it. */
  lemma {:induction false} JoinSnoc(parts: seq<string>, last: string, sep: string)
    requires |parts| >= 1
    ensures Join(parts + [last], sep) == Join(parts, sep) + sep + last
    decreases |parts|
  {
    assert (parts + [last])[1..] == parts[1..] + [last];
    if |parts| > 1 {
      JoinSnoc(parts[1..], last, sep);
    }
  }

  /**
   * Kotlin `lineSequence()`: the text cut at every "\r\n", "\n" and "\r";
   * the text after the last break is a line too, empty or not.
   */
  function Lines(s: string): (r: seq<string>)
    ensures |r| >= 1
    decreases |s|
  {
    if |s| == 0 then [""]
    else if s[0] == '\n' then [""] + Lines(s[1..])
    else if s[0] == '\r' then
      (if |s| > 1 && s[1] == '\n' then [""] + Lines(s[2..]) else [""] + Lines(s[1..]))
    else
      var rest := Lines(s[1..]);
      [[s[0]] + rest[0]] + rest[1..]
  }

  /** No line holds a line break. */
  lemma {:induction false} LinesHaveNoBreaks(s: string)
    ensures forall i :: 0 <= i < |Lines(s)| ==> '\n' !in Lines(s)[i] && '\r' !in Lines(s)[i]
    decreases |s|
  {
    if |s| > 0 {
      if s[0] == '\r' && |s| > 1 && s[1] == '\n' {
        LinesHaveNoBreaks(s[2..]);
      } else {
        LinesHaveNoBreaks(s[1..]);
      }
    }
  }

  /** Without carriage returns, the lines are the pieces between newlines. */
  lemma {:induction false} LinesWithoutCarriageReturn(s: string)
    requires '\r' !in s
    ensures Lines(s) == Split(s, '\n')
    decreases |s|
  {
    if |s| > 0 {
      assert s[0] != '\r';
      assert '\r' !in s[1..];
      LinesWithoutCarriageReturn(s[1..]);
    }
  }

  /** Kotlin `trim { it <= ' ' }`, the leading half. */
  function TrimStart(s: string): string
    decreases |s|
  {
    if |s| > 0 && s[0] <= ' ' then TrimStart(s[1..]) else s
  }

  /** Kotlin `trim { it <= ' ' }`, the trailing half. */
  function TrimEnd(s: string): string
    decreases |s|
  {
    if |s| > 0 && s[|s| - 1] <= ' ' then TrimEnd(s[..|s| - 1]) else s
  }

  /** Kotlin `trim { it <= ' ' }`: drops blank and control characters at both ends. */
  function Trim(s: string): string
  {
    TrimEnd(TrimStart(s))
  }

  /** Every character of `s` is a blank or a control character. */
  ghost predicate AllBlank(s: string)
  {
    forall i :: 0 <= i < |s| ==> s[i] <= ' '
  }

  lemma {:induction false} TrimStartEmpty(s: string)
    ensures TrimStart(s) == "" <==> AllBlank(s)
    ensures TrimStart(s) != "" ==> TrimStart(s)[0] > ' '
    decreases |s|
  {
    if |s| > 0 && s[0] <= ' ' {
      TrimStartEmpty(s[1..]);
      if AllBlank(s[1..]) {
        forall i | 0 <= i < |s| ensures s[i] <= ' ' {
          if i > 0 { assert s[i] == s[1..][i - 1]; }
        }
      }
    }
  }

  lemma {:induction false} TrimEndKeepsHead(s: string)
    requires |s| > 0 && s[0] > ' '
    ensures TrimEnd(s) != ""
    decreases |s|
  {
    if s[|s| - 1] <= ' ' {
      assert |s| > 1;
      TrimEndKeepsHead(s[..|s| - 1]);
    }
  }

  /** The trimmed text is empty exactly when every character is blank. */
  lemma TrimEmptyIffBlank(s: string)
    ensures Trim(s) == "" <==> AllBlank(s)
  {
    TrimStartEmpty(s);
    if TrimStart(s) != "" {
      TrimEndKeepsHead(TrimStart(s));
    }
  }

  /** The first `d` of `a + [d] + b`, when `a` has none, is the one after `a`. */
  lemma IndexOfAfter(a: string, d: char, b: string)
    requires d !in a
    ensures IndexOf(a + [d] + b, d) == Some(|a|)
  {
    var s := a + [d] + b;
    assert s[|a|] == d && s[..|a|] == a;
    assert d in s;
  }

  /** The last `d` of `a + [d] + b`, when `b` has none, is the one before `b`. */
  lemma LastIndexOfBefore(a: string, d: char, b: string)
    requires d !in b
    ensures LastIndexOf(a + [d] + b, d) == Some(|a|)
  {
    var s := a + [d] + b;
    assert s[|a|] == d && s[|a| + 1..] == b;
    assert d in s;
  }

  /** A limited split gives more than one piece exactly when the delimiter occurs. */
  lemma SplitAtMostSeveral(s: string, d: char, n: nat)
    requires n >= 2
    ensures |SplitAtMost(s, d, n)| >= 2 <==> d in s
  {
  }

  /** A limited split of `a + [d] + b`, when `a` has no `d`, starts with `a` and goes on with `b`. */
  lemma SplitAtMostFirst(a: string, d: char, b: string, n: nat)
    requires d !in a && n >= 2
    ensures SplitAtMost(a + [d] + b, d, n) == [a] + SplitAtMost(b, d, n - 1)
  {
    var s := a + [d] + b;
    IndexOfAfter(a, d, b);
    assert s[..|a|] == a && s[|a| + 1..] == b;
  }

  /** Without the delimiter, a limited split is the text itself. */
  lemma SplitAtMostNone(s: string, d: char, n: nat)
    requires d !in s && n >= 1
    ensures SplitAtMost(s, d, n) == [s]
  {
  }
}
