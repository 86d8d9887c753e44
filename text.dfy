/** The Python 2 string operations the converter relies on, on `seq<char>`. */
module Text {

  /** The bytes Python 2's `str.split()`, `str.rstrip()` and `str.isspace()` treat as white space. */
  const Whitespace: set<char> := {' ', '\t', '\n', '\r', '\U{0B}', '\U{0C}'}

  predicate IsSpace(c: char)
  {
    c in Whitespace
  }

  /** `not s.rstrip()`: the line holds nothing but white space. */
  predicate IsBlank(s: string)
    decreases |s|
  {
    s == [] || (IsSpace(s[0]) && IsBlank(s[1..]))
  }

  /** A blank string is one made of white space only. */
  lemma {:induction false} BlankIffAllSpace(s: string)
    ensures IsBlank(s) <==> forall i :: 0 <= i < |s| ==> IsSpace(s[i])
    decreases |s|
  {
    if s != [] {
      BlankIffAllSpace(s[1..]);
      assert forall i :: 1 <= i < |s| ==> s[i] == s[1..][i - 1];
    }
  }

  /** `s.startswith(p)` */
  predicate StartsWith(s: string, p: string)
  {
    |p| <= |s| && s[..|p|] == p
  }

  /** Two prefixes of the same string: the shorter is a prefix of the longer. */
  lemma CommonPrefix(s: string, p: string, q: string)
    requires StartsWith(s, p) && StartsWith(s, q) && |p| <= |q|
    ensures StartsWith(q, p)
  {
    assert q[..|p|] == s[..|q|][..|p|];
  }

  /** `s.endswith(p)` */
  predicate EndsWith(s: string, p: string)
  {
    |p| <= |s| && s[|s| - |p|..] == p
  }

  /** `p` occurs in `s` starting at index `j`. */
  predicate OccursAt(s: string, p: string, j: nat)
  {
    j + |p| <= |s| && s[j..j + |p|] == p
  }

  lemma OccursAtShift(s: string, p: string, j: nat)
    requires s != []
    ensures OccursAt(s, p, j + 1) <==> OccursAt(s[1..], p, j)
  {
    if j + 1 + |p| <= |s| {
      assert s[1..][j..j + |p|] == s[j + 1..j + 1 + |p|];
    }
  }

  /** `s.find(p)`: the first index at which `p` occurs in `s`, or -1 when it occurs nowhere. */
  function Find(s: string, p: string): (r: int)
    ensures r == -1 || 0 <= r <= |s| - |p|
    ensures r >= 0 ==> OccursAt(s, p, r)
    ensures r >= 0 ==> forall j: nat :: j < r ==> !OccursAt(s, p, j)
    ensures r < 0 ==> forall j: nat :: !OccursAt(s, p, j)
    decreases |s|
  {
    if StartsWith(s, p) then 0
    else if |s| <= |p| then -1
    else
      var r := Find(s[1..], p);
      forall j: nat | 1 <= j ensures OccursAt(s, p, j) <==> OccursAt(s[1..], p, j - 1) {
        OccursAtShift(s, p, j - 1);
      }
      assert !OccursAt(s, p, 0);
      if r < 0 then -1 else r + 1
  }

  /** `s.find(p) != -1` */
  predicate Contains(s: string, p: string)
  {
    Find(s, p) >= 0
  }

  /** `s.rstrip(cs)`: `s` without its longest suffix of characters from `cs`. */
  function TrimRight(s: string, cs: set<char>): (r: string)
    ensures |r| <= |s| && r == s[..|r|]
    ensures r == [] || r[|r| - 1] !in cs
    ensures forall i :: |r| <= i < |s| ==> s[i] in cs
    decreases |s|
  {
    if s != [] && s[|s| - 1] in cs then TrimRight(s[..|s| - 1], cs) else s
  }

  /** `s.lstrip(cs)`: `s` without its longest prefix of characters from `cs`. */
  function TrimLeft(s: string, cs: set<char>): (r: string)
    ensures |r| <= |s| && r == s[|s| - |r|..]
    ensures r == [] || r[0] !in cs
    ensures forall i :: 0 <= i < |s| - |r| ==> s[i] in cs
    decreases |s|
  {
    if s != [] && s[0] in cs then TrimLeft(s[1..], cs) else s
  }

  /** `s.strip(cs)` */
  function Strip(s: string, cs: set<char>): string
  {
    TrimLeft(TrimRight(s, cs), cs)
  }

  /** A line is blank exactly when `rstrip()` leaves nothing of it. */
  lemma BlankIffRStripEmpty(s: string)
    ensures IsBlank(s) <==> TrimRight(s, Whitespace) == []
  {
    BlankIffAllSpace(s);
  }

  /** Length of the leading run of non-white-space characters of `s`. */
  function WordLength(s: string): (n: nat)
    ensures n <= |s|
    ensures forall i :: 0 <= i < n ==> !IsSpace(s[i])
    ensures n == |s| || IsSpace(s[n])
  {
    if s == [] || IsSpace(s[0]) then 0 else 1 + WordLength(s[1..])
  }

  /** A token as `str.split()` produces one: non-empty, without white space. */
  predicate IsWord(w: string)
  {
    w != [] && forall i :: 0 <= i < |w| ==> !IsSpace(w[i])
  }

  /** `s.split()`: the maximal runs of non-white-space characters of `s`, in order. */
  function Words(s: string): (ws: seq<string>)
    ensures forall k :: 0 <= k < |ws| ==> IsWord(ws[k])
    decreases |s|
  {
    if s == [] then []
    else if IsSpace(s[0]) then Words(s[1..])
    else
      var n := WordLength(s);
      [s[..n]] + Words(s[n..])
  }

  /** `' '.join(ws)` */
  function JoinWords(ws: seq<string>): string
  {
    if |ws| == 0 then ""
    else if |ws| == 1 then ws[0]
    else ws[0] + " " + JoinWords(ws[1..])
  }

  lemma {:induction false} WordLengthOfWord(w: string, t: string)
    requires IsWord(w)
    requires t == [] || IsSpace(t[0])
    ensures WordLength(w + t) == |w|
    decreases |w|
  {
    if |w| > 1 {
      assert (w + t)[1..] == w[1..] + t;
      WordLengthOfWord(w[1..], t);
    } else {
      assert (w + t)[1..] == t;
    }
  }

  /** Splitting a space-joined list of tokens gives the tokens back. */
  lemma {:induction false} WordsOfJoin(ws: seq<string>)
    requires forall k :: 0 <= k < |ws| ==> IsWord(ws[k])
    ensures Words(JoinWords(ws)) == ws
    decreases |ws|
  {
    if |ws| == 1 {
      var w := ws[0];
      WordLengthOfWord(w, "");
      assert w + "" == w;
      assert w[..|w|] == w && w[|w|..] == [];
    } else if |ws| > 1 {
      var w, rest := ws[0], JoinWords(ws[1..]);
      var s := w + " " + rest;
      assert s == w + (" " + rest);
      WordLengthOfWord(w, " " + rest);
      assert s[..|w|] == w;
      assert s[|w|..] == " " + rest;
      assert (" " + rest)[1..] == rest;
      WordsOfJoin(ws[1..]);
    }
  }

  /** WordsOfJoin for a token in front of a list of tokens. */
  lemma WordsOfJoinCons(w: string, ws: seq<string>)
    requires IsWord(w) && forall k :: 0 <= k < |ws| ==> IsWord(ws[k])
    ensures Words(JoinWords([w] + ws)) == [w] + ws
  {
    var all := [w] + ws;
    forall k | 0 <= k < |all|
      ensures IsWord(all[k])
    {
      if k > 0 {
        assert all[k] == ws[k - 1];
      }
    }
    WordsOfJoin(all);
  }

  /** A space-joined list of tokens starts with a token character and holds no newline. */
  lemma {:induction false} JoinWordsShape(ws: seq<string>)
    requires ws != [] && forall k :: 0 <= k < |ws| ==> IsWord(ws[k])
    ensures var s := JoinWords(ws); s != [] && !IsSpace(s[0]) && forall i :: 0 <= i < |s| ==> s[i] != '\n'
    decreases |ws|
  {
    var w := ws[0];
    assert IsWord(w);
    if |ws| > 1 {
      var rest := JoinWords(ws[1..]);
      assert forall k :: 0 <= k < |ws| - 1 ==> ws[1..][k] == ws[k + 1];
      JoinWordsShape(ws[1..]);
      var s := w + " " + rest;
      forall i | 0 <= i < |s|
        ensures s[i] != '\n'
      {
        if i < |w| {
          assert s[i] == w[i];
        } else if i > |w| {
          assert s[i] == rest[i - |w| - 1];
        }
      }
    }
  }

  /** Stripping characters of `cs` off a run of them in front of a text that does not start with
      one leaves the text. */
  lemma {:induction false} TrimLeftPrefix(pre: string, t: string, cs: set<char>)
    requires forall j :: 0 <= j < |pre| ==> pre[j] in cs
    requires t == [] || t[0] !in cs
    ensures TrimLeft(pre + t, cs) == t
    decreases |pre|
  {
    if pre == [] {
      assert pre + t == t;
    } else {
      assert (pre + t)[1..] == pre[1..] + t;
      TrimLeftPrefix(pre[1..], t, cs);
    }
  }

  /** What follows the first token of `s`: empty when `s` holds no token, and otherwise white
      space first. */
  function AfterFirstWord(s: string): (r: string)
    ensures |r| <= |s| && r == s[|s| - |r|..]
    ensures r == [] || IsSpace(r[0])
    decreases |s|
  {
    if s == [] then []
    else if IsSpace(s[0]) then AfterFirstWord(s[1..])
    else s[WordLength(s)..]
  }

  /** The tokens after the first token are those of what follows it. */
  lemma {:induction false} WordsAfterFirst(s: string)
    requires Words(s) != []
    ensures Words(AfterFirstWord(s)) == Words(s)[1..]
    decreases |s|
  {
    if IsSpace(s[0]) {
      WordsAfterFirst(s[1..]);
    }
  }

  /** A second token leaves something after the first. */
  lemma SecondWordFollows(s: string)
    requires |Words(s)| >= 2
    ensures AfterFirstWord(s) != []
  {
    WordsAfterFirst(s);
  }

  /** The number of white-space characters of `s`. */
  function SpaceCount(s: string): (n: nat)
    ensures n <= |s|
    decreases |s|
  {
    if s == [] then 0 else (if IsSpace(s[0]) then 1 else 0) + SpaceCount(s[1..])
  }

  /** White space on its own: no tokens, every character counted. */
  lemma {:induction false} Spaces(b: string, t: string)
    requires forall i :: 0 <= i < |b| ==> IsSpace(b[i])
    ensures Words(b + t) == Words(t) && AfterFirstWord(b + t) == AfterFirstWord(t)
    ensures SpaceCount(b + t) == |b| + SpaceCount(t)
    decreases |b|
  {
    if b == [] {
      assert b + t == t;
    } else {
      assert (b + t)[1..] == b[1..] + t;
      Spaces(b[1..], t);
    }
  }

  /** A token counts no white space. */
  lemma {:induction false} WordSpaces(w: string, t: string)
    requires forall i :: 0 <= i < |w| ==> !IsSpace(w[i])
    ensures SpaceCount(w + t) == SpaceCount(t)
    decreases |w|
  {
    if w == [] {
      assert w + t == t;
    } else {
      assert (w + t)[1..] == w[1..] + t;
      WordSpaces(w[1..], t);
    }
  }

  /** A token in front of white space is the first token, and the rest follows it. */
  lemma WordFirst(w: string, t: string)
    requires IsWord(w) && (t == [] || IsSpace(t[0]))
    ensures Words(w + t) == [w] + Words(t) && AfterFirstWord(w + t) == t
  {
    WordLengthOfWord(w, t);
    var s := w + t;
    assert s[..|w|] == w && s[|w|..] == t;
  }

  /** White space, perhaps a token, and white space: at most that one token, and every white-
      space character counted. */
  lemma SpacedWord(blank: string, m: string, trail: string)
    requires m == [] || (IsWord(m) && blank != [])
    requires forall i :: 0 <= i < |blank| ==> IsSpace(blank[i])
    requires forall i :: 0 <= i < |trail| ==> IsSpace(trail[i])
    ensures var rest := blank + m + trail;
      && (rest == [] || IsSpace(rest[0]))
      && Words(rest) == (if m == [] then [] else [m])
      && SpaceCount(rest) == |blank| + |trail|
  {
    var rest := blank + m + trail;
    assert Words(trail) == [] && SpaceCount(trail) == |trail| by {
      Spaces(trail, []);
      assert trail + [] == trail;
    }
    var tail := m + trail;
    assert rest == blank + tail;
    assert Words(tail) == (if m == [] then [] else [m]) && SpaceCount(tail) == |trail|
        && (tail == [] || IsSpace(tail[0]) == (m == [])) by {
      if m == [] {
        assert tail == trail;
      } else {
        WordFirst(m, trail);
        WordSpaces(m, trail);
      }
    }
    assert Words(rest) == Words(tail) && SpaceCount(rest) == |blank| + SpaceCount(tail) by {
      Spaces(blank, tail);
    }
    assert rest == [] || IsSpace(rest[0]) by {
      if blank != [] {
        assert rest[0] == blank[0];
      } else {
        assert rest == tail;
      }
    }
  }
}
