/** The tokenizer of one input line: `starts_empty_or_ws` and `parse_line`.

    The words of a line are specified by the pure function Words; ParseLine cuts
    the line buffer in place and fills argv with the start index of each token,
    -1 standing for the terminating NULL. */
module Tokenizer {
  import opened CStrings

  /** The four separators: space, tab, carriage return and newline. */
  predicate IsSep(c: char)
  {
    c == ' ' || c == '\t' || c == '\r' || c == '\n'
  }

  /** Every character of s is a separator (the empty string included). */
  predicate AllSep(s: seq<char>)
  {
    forall i :: 0 <= i < |s| ==> IsSep(s[i])
  }

  /** The length of the run of non-separators at the start of s. */
  function WordLen(s: seq<char>): (k: nat)
    ensures k <= |s|
    ensures forall i :: 0 <= i < k ==> !IsSep(s[i])
    ensures k == |s| || IsSep(s[k])
  {
    if s == [] || IsSep(s[0]) then 0 else 1 + WordLen(s[1..])
  }

  /** The whitespace-delimited words of s, in order: the maximal runs of non-separators. */
  function Words(s: seq<char>): seq<seq<char>>
    decreases |s|
  {
    if s == [] then []
    else if IsSep(s[0]) then Words(s[1..])
    else
      var k := WordLen(s);
      [s[..k]] + Words(s[k..])
  }

  /** The number of tokens parse_line keeps at most: one slot of argv is kept for NULL. */
  function Cap(maxArgs: int): nat
  {
    if maxArgs >= 1 then maxArgs - 1 else 0
  }

  function Min(a: nat, b: nat): nat
  {
    if a <= b then a else b
  }

  /** The tokens parse_line yields for the C string s: its first Cap(maxArgs) words. */
  function Tokens(s: seq<char>, maxArgs: int): (t: seq<seq<char>>)
    ensures |t| == Min(|Words(s)|, Cap(maxArgs))
    ensures t <= Words(s)
  {
    Words(s)[..Min(|Words(s)|, Cap(maxArgs))]
  }

  /** The words, joined by single spaces. */
  function Join(ws: seq<seq<char>>): seq<char>
  {
    if ws == [] then []
    else if |ws| == 1 then ws[0]
    else ws[0] + [' '] + Join(ws[1..])
  }

  /** A word as the tokenizer produces it: non-empty and free of separators. */
  predicate IsWord(w: seq<char>)
  {
    |w| > 0 && forall i :: 0 <= i < |w| ==> !IsSep(w[i])
  }

  /** Tokens are clean: every word is non-empty, holds no separator, and holds
      only characters of the line it was taken from. */
  lemma {:induction false} WordsClean(s: seq<char>)
    ensures forall w :: w in Words(s) ==> IsWord(w) && forall c :: c in w ==> c in s
    decreases |s|
  {
    if s == [] {
    } else if IsSep(s[0]) {
      WordsClean(s[1..]);
    } else {
      var k := WordLen(s);
      WordsClean(s[k..]);
      assert Words(s) == [s[..k]] + Words(s[k..]);
      forall w | w in Words(s)
        ensures IsWord(w) && forall c :: c in w ==> c in s
      {
        if w == s[..k] {
        } else {
          assert w in Words(s[k..]);
        }
      }
    }
  }

  /** A line has no words exactly when it consists of separators only. */
  lemma {:induction false} NoWordsIffAllSep(s: seq<char>)
    ensures Words(s) == [] <==> AllSep(s)
    decreases |s|
  {
    if s == [] {
    } else if IsSep(s[0]) {
      NoWordsIffAllSep(s[1..]);
      assert AllSep(s) <==> AllSep(s[1..]) by {
        if AllSep(s[1..]) {
          forall i | 0 <= i < |s| ensures IsSep(s[i]) {
            if i > 0 { assert s[i] == s[1..][i - 1]; }
          }
        }
      }
    } else {
      assert !AllSep(s);
    }
  }

  /** Separators in front of a line contribute no word. */
  lemma {:induction false} SkipSeps(s: seq<char>, p: nat)
    requires p <= |s|
    requires forall i :: 0 <= i < p ==> IsSep(s[i])
    ensures Words(s[p..]) == Words(s)
    decreases p
  {
    if p > 0 {
      SkipSeps(s[1..], p - 1);
      assert s[1..][p - 1..] == s[p..];
    }
  }

  /** A maximal run of non-separators from `start` to `p` is the first word of s[start..]. */
  lemma WordFrom(s: seq<char>, start: nat, p: nat)
    requires start < p <= |s|
    requires forall k :: start <= k < p ==> !IsSep(s[k])
    requires p == |s| || IsSep(s[p])
    ensures Words(s[start..]) == [s[start..p]] + Words(s[p..])
  {
    var t := s[start..];
    assert t[..p - start] == s[start..p];
    assert t[p - start..] == s[p..];
  }

  /** A separator at q - 1 and a run of them from q to p contribute no word. */
  lemma SkipSepsFrom(s: seq<char>, q: nat, p: nat)
    requires 0 < q <= p <= |s|
    requires forall k :: q - 1 <= k < p ==> IsSep(s[k])
    ensures Words(s[q - 1..]) == Words(s[p..])
  {
    SkipSeps(s[q - 1..], p - q + 1);
    assert s[q - 1..][p - q + 1..] == s[p..];
  }

  /** A word followed by the end of the line or by a separator is the first word. */
  lemma WordsCons(w: seq<char>, t: seq<char>)
    requires IsWord(w)
    requires t == [] || IsSep(t[0])
    ensures Words(w + t) == [w] + Words(t)
  {
    var s := w + t;
    assert s[..|w|] == w;
    assert s[|w|..] == t;
  }

  /** Joining clean words with spaces and tokenizing gives the words back. */
  lemma {:induction false} WordsOfJoin(ws: seq<seq<char>>)
    requires forall i :: 0 <= i < |ws| ==> IsWord(ws[i])
    ensures Words(Join(ws)) == ws
    decreases |ws|
  {
    if ws == [] {
    } else if |ws| == 1 {
      WordsCons(ws[0], []);
      assert ws[0] + [] == ws[0];
    } else {
      var rest := Join(ws[1..]);
      WordsOfJoin(ws[1..]);
      WordsCons(ws[0], [' '] + rest);
      assert ws[0] + [' '] + rest == ws[0] + ([' '] + rest);
      assert ([' '] + rest)[1..] == rest;
      assert Words([' '] + rest) == Words(rest);
      assert [ws[0]] + ws[1..] == ws;
    }
  }

  /** The tokens are non-empty words free of separators, made of characters of the line. */
  lemma TokensClean(s: seq<char>, maxArgs: int)
    ensures forall i :: 0 <= i < |Tokens(s, maxArgs)| ==> IsWord(Tokens(s, maxArgs)[i])
    ensures forall i, c :: 0 <= i < |Tokens(s, maxArgs)| && c in Tokens(s, maxArgs)[i] ==> c in s
  {
    WordsClean(s);
    var t := Tokens(s, maxArgs);
    forall i | 0 <= i < |t|
      ensures t[i] in Words(s)
    {
      assert t[i] == Words(s)[i];
    }
  }

  /** A line of separators only yields no token; when there is room for one token
      the converse holds as well. */
  lemma BlankLineNoTokens(s: seq<char>, maxArgs: int)
    ensures AllSep(s) ==> Tokens(s, maxArgs) == []
    ensures maxArgs >= 2 ==> (Tokens(s, maxArgs) == [] <==> AllSep(s))
  {
    NoWordsIffAllSep(s);
  }

  /** Separators, then a word ended by a separator or the end of the line: the
      word comes first. */
  lemma SepsThenWord(a: seq<char>, w: seq<char>, t: seq<char>)
    requires AllSep(a) && IsWord(w) && (t == [] || IsSep(t[0]))
    ensures Words(a + w + t) == [w] + Words(t)
  {
    WordsCons(w, t);
    var s := a + (w + t);
    SkipSeps(s, |a|);
    assert s[|a|..] == w + t;
    assert s == a + w + t;
  }

  /** Two words with separators around and between them are the words of the line. */
  lemma TwoWords(a: seq<char>, w1: seq<char>, b: seq<char>, w2: seq<char>, c: seq<char>)
    requires AllSep(a) && AllSep(b) && AllSep(c) && b != []
    requires IsWord(w1) && IsWord(w2)
    ensures Words(a + w1 + b + w2 + c) == [w1, w2]
  {
    NoWordsIffAllSep(c);
    SepsThenWord(b, w2, c);
    SepsThenWord(a, w1, b + w2 + c);
    assert a + w1 + (b + w2 + c) == a + w1 + b + w2 + c;
  }

  /** Leading, repeated and trailing separators are dropped: the line
      "  ls   -l  " gives the two tokens "ls" and "-l". The line is a parameter
      equal to the literal, so that the solver does not unfold Words on the
      literal itself, which is costly. */
  lemma LsExample(line: seq<char>)
    requires line == "  ls   -l  "
    ensures Tokens(line, 128) == ["ls", "-l"]
  {
    TwoWords("  ", "ls", "   ", "-l", "  ");
    assert "  " + "ls" + "   " + "-l" + "  " == line;
  }

  /** `starts_empty_or_ws`: true exactly when every character before the terminator
      is a separator, which is exactly when the line has no word. */
  method StartsEmptyOrWs(s: seq<char>) returns (r: bool)
    requires '\0' in s
    ensures r <==> AllSep(CStr(s))
    ensures r <==> Words(CStr(s)) == []
  {
    ghost var line := CStr(s);
    NoWordsIffAllSep(line);
    var i := 0;
    while s[i] != '\0'
      invariant 0 <= i <= |line|
      invariant forall k :: 0 <= k < i ==> IsSep(line[k])
      decreases |line| - i
    {
      if !IsSep(s[i]) {
        assert line[i] == s[i];
        return false;
      }
      i := i + 1;
    }
    return true;
  }

  // ---------------------------------------------------------------------------
  // The positions parse_line visits, as pure functions of the line.

  /** The first index from i on that does not hold a separator, or |a|. */
  function SepEnd(a: seq<char>, i: nat): (j: nat)
    requires i <= |a|
    ensures i <= j <= |a|
    decreases |a| - i
  {
    if i == |a| || !IsSep(a[i]) then i else SepEnd(a, i + 1)
  }

  /** The first index from i on that holds a separator or the terminator, or |a|. */
  function TokenEnd(a: seq<char>, i: nat): (j: nat)
    requires i <= |a|
    ensures i <= j <= |a|
    decreases |a| - i
  {
    if i == |a| || a[i] == '\0' || IsSep(a[i]) then i else TokenEnd(a, i + 1)
  }

  /** Where parse_line resumes scanning the C string s after taking n tokens:
      past the leading separators, then past each token, its terminator and
      the separators after it. */
  ghost function Resume(s: seq<char>, n: nat): (p: nat)
    ensures p <= |s|
  {
    if n == 0 then SepEnd(s, 0)
    else
      var e := TokenEnd(s, Resume(s, n - 1));
      if e == |s| then |s| else SepEnd(s, e + 1)
  }

  /** The start index of each of the first n tokens. */
  ghost function Starts(s: seq<char>, n: nat): (r: seq<int>)
    ensures |r| == n
  {
    if n == 0 then [] else Starts(s, n - 1) + [Resume(s, n - 1)]
  }

  /** Whether parse_line has overwritten position k with '\0' while taking n
      tokens: k ends one of them and a separator follows it. */
  ghost predicate IsCut(s: seq<char>, n: nat, k: int)
  {
    n > 0 && (IsCut(s, n - 1, k) || (TokenEnd(s, Resume(s, n - 1)) < |s| && k == TokenEnd(s, Resume(s, n - 1))))
  }

  /** The buffer orig, holding the C string s, after parse_line has taken n tokens. */
  ghost function CutLine(orig: seq<char>, s: seq<char>, n: nat): (a: seq<char>)
    requires |s| < |orig|
    ensures |a| == |orig|
  {
    if n == 0 then orig
    else
      var b := CutLine(orig, s, n - 1);
      var e := TokenEnd(s, Resume(s, n - 1));
      if e < |s| then b[e := '\0'] else b
  }

  lemma {:induction false} SepEndSpec(a: seq<char>, i: nat)
    requires i <= |a|
    ensures forall k :: i <= k < SepEnd(a, i) ==> IsSep(a[k])
    ensures SepEnd(a, i) == |a| || !IsSep(a[SepEnd(a, i)])
    decreases |a| - i
  {
    if i < |a| && IsSep(a[i]) {
      SepEndSpec(a, i + 1);
    }
  }

  lemma {:induction false} TokenEndSpec(a: seq<char>, i: nat)
    requires i <= |a|
    ensures forall k :: i <= k < TokenEnd(a, i) ==> a[k] != '\0' && !IsSep(a[k])
    ensures TokenEnd(a, i) == |a| || a[TokenEnd(a, i)] == '\0' || IsSep(a[TokenEnd(a, i)])
    decreases |a| - i
  {
    if i < |a| && a[i] != '\0' && !IsSep(a[i]) {
      TokenEndSpec(a, i + 1);
    }
  }

  /** Scanning a buffer whose text from i on is that of s, terminated by '\0',
      stops where scanning s itself stops. */
  lemma {:induction false} ScanAgree(a: seq<char>, s: seq<char>, i: nat)
    requires '\0' !in s
    requires i <= |s| < |a| && a[|s|] == '\0'
    requires a[i..|s|] == s[i..]
    ensures SepEnd(a, i) == SepEnd(s, i)
    ensures TokenEnd(a, i) == TokenEnd(s, i)
    decreases |s| - i
  {
    if i < |s| {
      assert a[i] == a[i..|s|][0] == s[i];
      assert a[i + 1..|s|] == a[i..|s|][1..];
      assert s[i + 1..] == s[i..][1..];
      ScanAgree(a, s, i + 1);
    }
  }

  /** Scanning a buffer that agrees with the original line from p on stops where
      scanning the line's C string stops; the terminator is reached exactly at
      the end of the C string. */
  lemma ScanFrom(orig: seq<char>, a: seq<char>, p: nat)
    requires '\0' in orig && |a| == |orig|
    requires p <= |CStr(orig)| && a[p..] == orig[p..]
    ensures SepEnd(a, p) == SepEnd(CStr(orig), p)
    ensures TokenEnd(a, p) == TokenEnd(CStr(orig), p)
    ensures a[p] == '\0' <==> p == |CStr(orig)|
    ensures a[|CStr(orig)|] == '\0'
  {
    var s := CStr(orig);
    assert a[|s|] == a[p..][|s| - p] == orig[|s|];
    assert a[p..|s|] == a[p..][..|s| - p];
    assert orig[p..|s|] == orig[p..][..|s| - p];
    assert s[p..] == orig[p..|s|];
    ScanAgree(a, s, p);
    assert a[p] == orig[p];
  }

  /** Resume never moves backwards. */
  lemma {:induction false} ResumeMono(s: seq<char>, i: nat, j: nat)
    requires i <= j
    ensures Resume(s, i) <= Resume(s, j)
    ensures i < j && TokenEnd(s, Resume(s, i)) < |s| ==> TokenEnd(s, Resume(s, i)) < Resume(s, j)
    decreases j - i
  {
    if i < j {
      ResumeMono(s, i + 1, j);
    }
  }

  /** After n tokens the rest of the line, from where scanning resumes, holds
      exactly the words not yet taken. */
  lemma {:induction false} WordsResume(s: seq<char>, n: nat)
    requires '\0' !in s
    requires n <= |Words(s)|
    ensures Words(s[Resume(s, n)..]) == Words(s)[n..]
    ensures Resume(s, n) == |s| || !IsSep(s[Resume(s, n)])
  {
    if n == 0 {
      SepEndSpec(s, 0);
      SkipSeps(s, SepEnd(s, 0));
    } else {
      WordsResume(s, n - 1);
      var p := Resume(s, n - 1);
      var e := TokenEnd(s, p);
      WordAt(s, n - 1);
      if e < |s| {
        SepEndSpec(s, e + 1);
        SkipSepsFrom(s, e + 1, SepEnd(s, e + 1));
      }
    }
  }

  /** The n-th token lies between Resume(s, n) and the next separator. */
  lemma WordAt(s: seq<char>, n: nat)
    requires '\0' !in s
    requires n < |Words(s)|
    requires Words(s[Resume(s, n)..]) == Words(s)[n..]
    requires Resume(s, n) == |s| || !IsSep(s[Resume(s, n)])
    ensures Resume(s, n) < TokenEnd(s, Resume(s, n))
    ensures s[Resume(s, n)..TokenEnd(s, Resume(s, n))] == Words(s)[n]
    ensures Words(s[TokenEnd(s, Resume(s, n))..]) == Words(s)[n + 1..]
  {
    var p := Resume(s, n);
    var e := TokenEnd(s, p);
    TokenEndSpec(s, p);
    assert Words(s[p..]) != [];
    assert p < |s|;
    assert s[p] != '\0';
    WordFrom(s, p, e);
    assert Words(s)[n..] == [Words(s)[n]] + Words(s)[n + 1..];
  }

  /** Token n of s is the text from Resume(s, n) up to the next separator or the end. */
  lemma WordSlice(s: seq<char>, n: nat)
    requires '\0' !in s
    requires n < |Words(s)|
    ensures Resume(s, n) < TokenEnd(s, Resume(s, n))
    ensures s[Resume(s, n)..TokenEnd(s, Resume(s, n))] == Words(s)[n]
  {
    WordsResume(s, n);
    WordAt(s, n);
  }

  /** Scanning resumes at the end of the line exactly when every word is taken. */
  lemma ResumeEnd(s: seq<char>, n: nat)
    requires '\0' !in s
    requires n <= |Words(s)|
    ensures Resume(s, n) == |s| <==> n == |Words(s)|
  {
    WordsResume(s, n);
    var p := Resume(s, n);
    if p < |s| {
      var t := s[p..];
      assert t != [] && !IsSep(t[0]);
      assert Words(t) != [];
    }
  }

  /** The start index recorded for token i. */
  lemma {:induction false} StartsAt(s: seq<char>, n: nat, i: nat)
    requires i < n
    ensures Starts(s, n)[i] == Resume(s, i)
  {
    if i < n - 1 {
      StartsAt(s, n - 1, i);
    }
  }

  /** What the cut buffer holds at one position: '\0' at a cut, the original elsewhere. */
  lemma {:induction false} CutLineAt(orig: seq<char>, s: seq<char>, n: nat, k: nat)
    requires |s| < |orig| && k < |orig|
    ensures CutLine(orig, s, n)[k] == if IsCut(s, n, k) then '\0' else orig[k]
  {
    if n > 0 {
      CutLineAt(orig, s, n - 1, k);
    }
  }

  /** A cut ends one of the tokens taken so far, and a separator follows it. */
  lemma {:induction false} CutsAre(s: seq<char>, n: nat, k: int)
    requires IsCut(s, n, k)
    ensures exists i :: 0 <= i < n && k == TokenEnd(s, Resume(s, i)) && k < |s|
  {
    if IsCut(s, n - 1, k) {
      CutsAre(s, n - 1, k);
    }
  }

  /** Agreement on a suffix carries over to every shorter suffix. */
  lemma SuffixFrom(b: seq<char>, orig: seq<char>, p: nat, q: nat)
    requires p <= q <= |b| == |orig| && b[p..] == orig[p..]
    ensures b[q..] == orig[q..]
  {
    assert b[q..] == b[p..][q - p..];
    assert orig[q..] == orig[p..][q - p..];
  }

  /** Writing at e keeps agreement on a suffix starting past e. */
  lemma SuffixPastWrite(b: seq<char>, orig: seq<char>, p: nat, e: nat, c: char, q: nat)
    requires p <= e < q <= |b| == |orig| && b[p..] == orig[p..]
    ensures b[e := c][q..] == orig[q..]
  {
    SuffixFrom(b, orig, p, q);
    assert b[e := c][q..] == b[q..];
  }

  /** The buffer is untouched from where scanning resumes, and, after a cut,
      from just past that cut. */
  lemma {:induction false} LineAhead(orig: seq<char>, s: seq<char>, n: nat)
    requires |s| < |orig|
    ensures CutLine(orig, s, n)[Resume(s, n)..] == orig[Resume(s, n)..]
  {
    if n > 0 {
      LineAhead(orig, s, n - 1);
      var p := Resume(s, n - 1);
      var e := TokenEnd(s, p);
      var b := CutLine(orig, s, n - 1);
      if e < |s| {
        assert Resume(s, n) == SepEnd(s, e + 1);
        SuffixPastWrite(b, orig, p, e, '\0', SepEnd(s, e + 1));
      } else {
        assert Resume(s, n) == |s|;
        SuffixFrom(b, orig, p, |s|);
      }
    }
  }

  /** The scan of token n on the buffer: it starts within the line, and it stops
      at the end of the token, on a '\0' exactly when the line ends there. */
  lemma TokenScan(orig: seq<char>, n: nat)
    requires '\0' in orig
    ensures var s := CStr(orig); var a := CutLine(orig, s, n);
      var p := Resume(s, n); var e := TokenEnd(s, p);
      && (a[p] == '\0' <==> p == |s|)
      && a[|s|] == '\0'
      && TokenEnd(a, p) == e
      && (a[e] == '\0' <==> e == |s|)
  {
    var s := CStr(orig);
    var a := CutLine(orig, s, n);
    var p := Resume(s, n);
    var e := TokenEnd(s, p);
    LineAhead(orig, s, n);
    ScanFrom(orig, a, p);
    SuffixFrom(a, orig, p, e);
    ScanFrom(orig, a, e);
  }

  /** The cut after token n: nothing when the line ends with the token, otherwise
      '\0' over the separator after it, from where the separator scan reaches the
      start of token n + 1. */
  lemma TokenCut(orig: seq<char>, n: nat)
    requires '\0' in orig
    ensures var s := CStr(orig); var a := CutLine(orig, s, n);
      var p := Resume(s, n); var e := TokenEnd(s, p);
      && (e == |s| ==> CutLine(orig, s, n + 1) == a && Resume(s, n + 1) == |s|)
      && (e < |s| ==>
            var b := CutLine(orig, s, n + 1);
            b == a[e := '\0'] && b[|s|] == '\0' && SepEnd(b, e + 1) == Resume(s, n + 1))
  {
    var s := CStr(orig);
    var a := CutLine(orig, s, n);
    var p := Resume(s, n);
    var e := TokenEnd(s, p);
    CutLineStep(orig, s, n);
    if e < |s| {
      LineAhead(orig, s, n);
      SuffixPastWrite(a, orig, p, e, '\0', e + 1);
      ScanFrom(orig, a[e := '\0'], e + 1);
    }
  }

  /** The end of every token followed by a separator is a cut. */
  lemma {:induction false} CutsHas(s: seq<char>, n: nat, i: nat)
    requires i < n && TokenEnd(s, Resume(s, i)) < |s|
    ensures IsCut(s, n, TokenEnd(s, Resume(s, i)))
  {
    if i < n - 1 {
      CutsHas(s, n - 1, i);
    }
  }

  /** Nothing at or after the point where scanning resumes has been cut. */
  lemma {:induction false} CutsBelowAt(s: seq<char>, n: nat, k: int)
    requires k >= Resume(s, n)
    ensures !IsCut(s, n, k)
  {
    if n > 0 {
      ResumeMono(s, n - 1, n);
      CutsBelowAt(s, n - 1, k);
    }
  }

  /** A token ends no later than where scanning resumes for any later token. */
  lemma EndBefore(s: seq<char>, i: nat, m: nat)
    requires i < m
    ensures TokenEnd(s, Resume(s, i)) <= Resume(s, m)
  {
    ResumeMono(s, i + 1, m);
  }

  /** No cut falls inside a token. */
  lemma {:induction false} CutFree(s: seq<char>, n: nat, i: nat, k: int)
    requires i < n
    requires Resume(s, i) <= k < TokenEnd(s, Resume(s, i))
    ensures !IsCut(s, n, k)
  {
    if i < n - 1 {
      CutFree(s, n - 1, i, k);
      EndBefore(s, i, n - 1);
    } else {
      CutsBelowAt(s, n - 1, k);
    }
  }

  /** The text of a token is left as it was. */
  lemma TokenIntact(orig: seq<char>, n: nat, i: nat)
    requires '\0' in orig
    requires i < n
    ensures var s := CStr(orig); var p := Resume(s, i);
      CutLine(orig, s, n)[p..TokenEnd(s, p)] == s[p..TokenEnd(s, p)]
  {
    var s := CStr(orig);
    var a := CutLine(orig, s, n);
    var p := Resume(s, i);
    var e := TokenEnd(s, p);
    forall k | p <= k < e
      ensures a[k] == s[k]
    {
      CutLineAt(orig, s, n, k);
      CutFree(s, n, i, k);
    }
  }

  /** Each token is followed by '\0': a cut, or the line's own terminator. */
  lemma TokenTerminated(orig: seq<char>, n: nat, i: nat)
    requires '\0' in orig
    requires i < n
    ensures var s := CStr(orig);
      CutLine(orig, s, n)[TokenEnd(s, Resume(s, i))] == '\0'
  {
    var s := CStr(orig);
    var e := TokenEnd(s, Resume(s, i));
    CutLineAt(orig, s, n, e);
    if e < |s| {
      CutsHas(s, n, i);
    } else {
      CutsBelowAt(s, n, e);
    }
  }

  /** After n tokens, each of them sits in the buffer as a C string at its start index. */
  lemma TokenKept(orig: seq<char>, n: nat, i: nat)
    requires '\0' in orig
    requires i < n <= |Words(CStr(orig))|
    ensures HoldsCStr(CutLine(orig, CStr(orig), n), Resume(CStr(orig), i), Words(CStr(orig))[i])
  {
    WordSlice(CStr(orig), i);
    TokenIntact(orig, n, i);
    TokenTerminated(orig, n, i);
  }

  /** After n tokens, a position of the buffer that differs from the original
      holds '\0', held a separator, and ends one of the tokens. */
  lemma CutChanged(orig: seq<char>, n: nat, k: nat)
    requires '\0' in orig
    requires n <= |Words(CStr(orig))|
    requires k < |orig| && CutLine(orig, CStr(orig), n)[k] != orig[k]
    ensures CutLine(orig, CStr(orig), n)[k] == '\0' && IsSep(orig[k])
    ensures exists i :: 0 <= i < n && k == Resume(CStr(orig), i) + |Words(CStr(orig))[i]|
  {
    var s := CStr(orig);
    CutLineAt(orig, s, n, k);
    CutsAre(s, n, k);
    var i :| 0 <= i < n && k == TokenEnd(s, Resume(s, i)) && k < |s|;
    WordSlice(s, i);
    TokenEndSpec(s, Resume(s, i));
    assert orig[k] == s[k];
  }

  /** The state parse_line leaves behind for the line orig: the first argc
      tokens each sit as a C string in the buffer a at the index av[i]; av[argc]
      is the NULL marker -1 and the rest of av is as it was in av0; and every
      position of a that changed holds a '\0' written over a separator at the end
      of one of the tokens. */
  ghost predicate Parsed(orig: seq<char>, maxArgs: int, a: seq<char>, av0: seq<int>, av: seq<int>, argc: int)
    requires '\0' in orig
  {
    var t := Tokens(CStr(orig), maxArgs);
    && 0 <= argc == |t| && |a| == |orig| && |av| == |av0| && argc < |av| && av[argc] == -1
    && (forall i :: 0 <= i < argc ==> HoldsCStr(a, av[i], t[i]))
    && (forall i :: argc < i < |av| ==> av[i] == av0[i])
    && (forall k :: 0 <= k < |a| && a[k] != orig[k] ==>
          a[k] == '\0' && IsSep(orig[k]) && exists i :: 0 <= i < argc && k == av[i] + |t[i]|)
  }

  /** Token i of a parsed line is read back as the C string starting at argv[i]. */
  lemma TokenAt(orig: seq<char>, maxArgs: int, a: seq<char>, av0: seq<int>, av: seq<int>, argc: int, i: int)
    requires '\0' in orig
    requires Parsed(orig, maxArgs, a, av0, av, argc)
    requires 0 <= i < argc
    ensures 0 <= av[i] < |a| && '\0' in a[av[i]..]
    ensures CStr(a[av[i]..]) == Tokens(CStr(orig), maxArgs)[i]
  {
    var t := Tokens(CStr(orig), maxArgs);
    assert HoldsCStr(a, av[i], t[i]);
    TokensClean(CStr(orig), maxArgs);
    assert '\0' !in t[i];
    HoldsCStrIsCStr(a, av[i], t[i]);
  }

  /** The recorded start of token i is where word i begins: the words of the line
      from there on are words i, i + 1, and so on. */
  lemma StartsAreWordStarts(s: seq<char>, n: nat)
    requires '\0' !in s && n <= |Words(s)|
    ensures forall i :: 0 <= i < n ==>
      0 <= Starts(s, n)[i] <= |s| && Words(s[Starts(s, n)[i]..]) == Words(s)[i..]
  {
    forall i | 0 <= i < n
      ensures 0 <= Starts(s, n)[i] <= |s| && Words(s[Starts(s, n)[i]..]) == Words(s)[i..]
    {
      StartsAt(s, n, i);
      WordsResume(s, i);
    }
  }

  /** When the loop of parse_line stops, it has taken the tokens Tokens(s, maxArgs). */
  lemma ParseCount(orig: seq<char>, maxArgs: int, argc: nat, a: seq<char>)
    requires '\0' in orig
    requires argc <= Cap(maxArgs) && argc <= |Words(CStr(orig))|
    requires a == CutLine(orig, CStr(orig), argc)
    requires a[Resume(CStr(orig), argc)] == '\0' || argc >= maxArgs - 1
    ensures argc == |Tokens(CStr(orig), maxArgs)|
  {
    var s := CStr(orig);
    LineAhead(orig, s, argc);
    ScanFrom(orig, a, Resume(s, argc));
    ResumeEnd(s, argc);
  }

  /** What parse_line leaves behind once it has stored the terminating NULL. */
  lemma ParseFinal(orig: seq<char>, maxArgs: int, argc: nat, a: seq<char>, av0: seq<int>, av: seq<int>)
    requires '\0' in orig
    requires argc == |Tokens(CStr(orig), maxArgs)| && argc < |av0|
    requires a == CutLine(orig, CStr(orig), argc)
    requires av == (Starts(CStr(orig), argc) + av0[argc..])[argc := -1]
    ensures Parsed(orig, maxArgs, a, av0, av, argc)
  {
    var s := CStr(orig);
    var t := Tokens(s, maxArgs);
    forall i | 0 <= i < argc
      ensures av[i] == Resume(s, i) && t[i] == Words(s)[i]
    {
      StartsAt(s, argc, i);
    }
    forall i | 0 <= i < argc
      ensures HoldsCStr(a, av[i], t[i])
    {
      TokenKept(orig, argc, i);
    }
    forall i | argc < i < |av|
      ensures av[i] == av0[i]
    {
      assert av[i] == av0[argc..][i - argc];
    }
    forall k | 0 <= k < |a| && a[k] != orig[k]
      ensures a[k] == '\0' && IsSep(orig[k])
      ensures exists i :: 0 <= i < argc && k == av[i] + |t[i]|
    {
      CutChanged(orig, argc, k);
    }
  }

  /** One step of parse_line on the buffer: token n is cut off when a separator
      follows it, and scanning resumes past the separators after it. */
  lemma CutLineStep(orig: seq<char>, s: seq<char>, n: nat)
    requires |s| < |orig|
    ensures var e := TokenEnd(s, Resume(s, n));
      && CutLine(orig, s, n + 1) == (if e < |s| then CutLine(orig, s, n)[e := '\0'] else CutLine(orig, s, n))
      && Resume(s, n + 1) == (if e < |s| then SepEnd(s, e + 1) else |s|)
  {
  }

  /** Recording the start of token n in argv extends the recorded starts by one. */
  lemma ArgvRecord(s: seq<char>, av0: seq<int>, n: nat)
    requires n < |av0|
    ensures (Starts(s, n) + av0[n..])[n := Resume(s, n)] == Starts(s, n + 1) + av0[n + 1..]
  {
    var l := (Starts(s, n) + av0[n..])[n := Resume(s, n)];
    var r := Starts(s, n + 1) + av0[n + 1..];
    assert |l| == |r|;
    forall i | 0 <= i < |l|
      ensures l[i] == r[i]
    {
      if i < n {
        assert l[i] == Starts(s, n)[i] == r[i];
      } else if i > n {
        assert l[i] == av0[i] == r[i];
      }
    }
  }

  /** The separator-skipping loops of parse_line. The terminator at nul is not a
      separator, so the scan stops at or before it. */
  method SkipSeparators(line: array<char>, p: nat, ghost nul: nat) returns (q: nat)
    requires p <= nul < line.Length && line[nul] == '\0'
    ensures q == SepEnd(line[..], p) && q <= nul
  {
    q := p;
    while IsSep(line[q])
      invariant p <= q <= nul
      invariant SepEnd(line[..], q) == SepEnd(line[..], p)
      decreases nul - q
    {
      q := q + 1;
    }
  }

  /** The loop of parse_line that moves to the end of a token: the first
      separator or terminator from p on. */
  method ScanWord(line: array<char>, p: nat, ghost nul: nat) returns (e: nat)
    requires p <= nul < line.Length && line[nul] == '\0'
    ensures e == TokenEnd(line[..], p) && e <= nul
  {
    e := p;
    while line[e] != '\0' && !IsSep(line[e])
      invariant p <= e <= nul
      invariant TokenEnd(line[..], e) == TokenEnd(line[..], p)
      decreases nul - e
    {
      e := e + 1;
    }
  }

  /** One pass of the token loop of parse_line: records the token starting at p
      in argv[argc], moves to its end, and, unless the line ends there, cuts it
      off with '\0' and skips the separators after it. last reports that the
      line ended at the token. */
  method TakeToken(line: array<char>, argv: array<int>, p: nat, argc: nat,
                   ghost orig: seq<char>, ghost av0: seq<int>) returns (q: nat, last: bool)
    requires '\0' in orig && |orig| == line.Length
    requires argc < argv.Length == |av0|
    requires p == Resume(CStr(orig), argc) && line[p] != '\0'
    requires line[..] == CutLine(orig, CStr(orig), argc)
    requires argv[..] == Starts(CStr(orig), argc) + av0[argc..]
    modifies line, argv
    ensures p < |CStr(orig)|
    ensures q == Resume(CStr(orig), argc + 1) && (last ==> line[q] == '\0')
    ensures line[..] == CutLine(orig, CStr(orig), argc + 1)
    ensures argv[..] == Starts(CStr(orig), argc + 1) + av0[argc + 1..]
  {
    ghost var s := CStr(orig);
    TokenScan(orig, argc);
    TokenCut(orig, argc);
    argv[argc] := p;
    ArgvRecord(s, av0, argc);
    var e := ScanWord(line, p, |s|);
    if line[e] == '\0' {
      return e, true;
    }
    line[e] := '\0';
    q := SkipSeparators(line, e + 1, |s|);
    last := false;
  }

  /** The scanning part of parse_line: skips the leading separators, then takes
      tokens while the line goes on and fewer than maxArgs - 1 are taken. */
  method ScanTokens(line: array<char>, argv: array<int>, maxArgs: int,
                    ghost orig: seq<char>, ghost av0: seq<int>) returns (argc: int)
    requires '\0' in orig && line[..] == orig && argv[..] == av0
    requires 0 < argv.Length && maxArgs <= argv.Length
    modifies line, argv
    ensures argc == |Tokens(CStr(orig), maxArgs)| && argc < argv.Length
    ensures line[..] == CutLine(orig, CStr(orig), argc)
    ensures argv[..] == Starts(CStr(orig), argc) + av0[argc..]
  {
    ghost var s := CStr(orig);
    ScanFrom(orig, orig, 0);
    var p := SkipSeparators(line, 0, |s|);
    argc := 0;
    while line[p] != '\0' && argc < maxArgs - 1
      invariant 0 <= argc <= Cap(maxArgs) && argc <= |Words(s)|
      invariant p == Resume(s, argc)
      invariant line[..] == CutLine(orig, s, argc)
      invariant argv[..] == Starts(s, argc) + av0[argc..]
      decreases |Words(s)| - argc
    {
      var last;
      ghost var n := argc;
      p, last := TakeToken(line, argv, p, argc, orig, av0);
      ResumeEnd(s, n);
      argc := argc + 1;
      if last {
        break;
      }
    }
    ParseCount(orig, maxArgs, argc, line[..]);
  }

  /** `parse_line`: splits the C string in line into at most maxArgs - 1 tokens.
      Each token is cut off in place by writing '\0' over the separator that
      follows it; argv[i] becomes the start index of token i and argv[argc] the
      NULL marker -1. */
  method ParseLine(line: array<char>, argv: array<int>, maxArgs: int) returns (argc: int)
    requires '\0' in line[..]
    requires 0 < argv.Length && maxArgs <= argv.Length
    modifies line, argv
    ensures argc == |Tokens(CStr(old(line[..])), maxArgs)|
    ensures Parsed(old(line[..]), maxArgs, line[..], old(argv[..]), argv[..], argc)
    ensures argv[..argc] == Starts(CStr(old(line[..])), argc)
    ensures forall i :: 0 <= i < argc ==>
      0 <= argv[i] <= |CStr(old(line[..]))| &&
      Words(CStr(old(line[..]))[argv[i]..]) == Words(CStr(old(line[..])))[i..]
    ensures line[..] == CutLine(old(line[..]), CStr(old(line[..])), argc)
  {
    ghost var orig := line[..];
    ghost var av0 := argv[..];
    argc := ScanTokens(line, argv, maxArgs, orig, av0);
    argv[argc] := -1;
    ParseFinal(orig, maxArgs, argc, line[..], av0, argv[..]);
    assert argv[..argc] == (Starts(CStr(orig), argc) + av0[argc..])[..argc];
    StartsAreWordStarts(CStr(orig), argc);
  }
}
