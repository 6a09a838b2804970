/** `_txts(nodes)`: the text nodes a selector returned, with blank nodes
    dropped, each remaining node's whitespace runs collapsed to one space and
    its ends stripped, and the results joined with single spaces. */
module TextNodes {
  import opened Strings

  /** Every whitespace character of `s` is a plain space followed by a
      non-whitespace character or by the end of `s`: what `re.sub(r"\s+", " ", s)`
      leaves behind. */
  predicate Squeezed(s: string) {
    forall i :: 0 <= i < |s| && IsSpace(s[i]) ==> s[i] == ' ' && (i + 1 < |s| ==> !IsSpace(s[i + 1]))
  }

  /** No whitespace at either end: what `str.strip()` leaves behind. */
  predicate Trimmed(s: string) {
    s != [] ==> !IsSpace(s[0]) && !IsSpace(s[|s| - 1])
  }

  /** Normal form of `_txts`: trimmed, no two whitespace characters in a row,
      and every whitespace character a plain space. */
  predicate Clean(s: string) {
    Trimmed(s) && Squeezed(s)
  }

  /** All characters of `s` are whitespace (this includes the empty string). */
  predicate Blank(s: string) {
    forall i :: 0 <= i < |s| ==> IsSpace(s[i])
  }

  /** `re.sub(r"\s+", " ", s)`, scanning left to right; `inRun` says the
      character just before `s` was whitespace and has already been written
      as the run's single space. */
  function CollapseFrom(s: string, inRun: bool): (r: string)
    ensures Squeezed(r)
    ensures inRun && r != [] ==> !IsSpace(r[0])
    ensures !inRun ==> (r == [] <==> s == [])
    ensures !inRun && s != [] ==> (IsSpace(r[0]) <==> IsSpace(s[0]))
  {
    if s == [] then []
    else if IsSpace(s[0]) then
      if inRun then CollapseFrom(s[1..], true) else [' '] + CollapseFrom(s[1..], true)
    else [s[0]] + CollapseFrom(s[1..], false)
  }

  /** `re.sub(r"\s+", " ", s)` */
  function Collapse(s: string): string {
    CollapseFrom(s, false)
  }

  /** `s.lstrip()` */
  function TrimStart(s: string): (r: string)
    ensures |r| <= |s|
    ensures r != [] ==> !IsSpace(r[0])
  {
    if s != [] && IsSpace(s[0]) then TrimStart(s[1..]) else s
  }

  /** `s.lstrip()` is a suffix of `s`. */
  lemma {:induction false} TrimStartSuffix(s: string)
    ensures TrimStart(s) == s[|s| - |TrimStart(s)|..]
  {
    if s != [] && IsSpace(s[0]) {
      TrimStartSuffix(s[1..]);
    }
  }

  /** `s.rstrip()` */
  function TrimEnd(s: string): (r: string)
    ensures |r| <= |s|
    ensures r != [] ==> !IsSpace(r[|r| - 1]) && r[0] == s[0]
  {
    if s != [] && IsSpace(s[|s| - 1]) then TrimEnd(s[..|s| - 1]) else s
  }

  /** `s.rstrip()` is a prefix of `s`. */
  lemma {:induction false} TrimEndPrefix(s: string)
    ensures TrimEnd(s) == s[..|TrimEnd(s)|]
  {
    if s != [] && IsSpace(s[|s| - 1]) {
      TrimEndPrefix(s[..|s| - 1]);
    }
  }

  /** `s.strip()` */
  function Strip(s: string): (r: string)
    ensures Trimmed(r)
  {
    TrimEnd(TrimStart(s))
  }

  /** `re.sub(r"\s+", " ", s).strip()`: one fragment as `_txts` rewrites it. */
  function Normalize(s: string): string {
    Strip(Collapse(s))
  }

  /** The guard `x and x.strip()` of the comprehension in `_txts`. */
  predicate Keeps(x: string) {
    x != [] && Strip(x) != []
  }

  /** The list comprehension in `_txts`. */
  function KeptFragments(nodes: seq<string>): seq<string> {
    if nodes == [] then []
    else (if Keeps(nodes[0]) then [Normalize(nodes[0])] else []) + KeptFragments(nodes[1..])
  }

  /** `_txts(nodes)` */
  function Txts(nodes: seq<string>): string {
    Join(" ", KeptFragments(nodes))
  }

  // ---------------------------------------------------------------------
  // Words: an independent description of the same text, as `s.split()`.
  // ---------------------------------------------------------------------

  /** A non-empty run of non-whitespace characters. */
  predicate IsWord(w: string) {
    w != [] && forall i :: 0 <= i < |w| ==> !IsSpace(w[i])
  }

  /** The longest prefix of `s` without whitespace. */
  function LeadingWord(s: string): (w: string)
    ensures |w| <= |s| && w == s[..|w|]
    ensures forall i :: 0 <= i < |w| ==> !IsSpace(w[i])
    ensures |w| < |s| ==> IsSpace(s[|w|])
    ensures s != [] && !IsSpace(s[0]) ==> w != []
  {
    if s == [] || IsSpace(s[0]) then [] else [s[0]] + LeadingWord(s[1..])
  }

  /** `s.split()`: the maximal runs of non-whitespace characters, in order. */
  function Words(s: string): (ws: seq<string>)
    ensures forall k :: 0 <= k < |ws| ==> IsWord(ws[k])
    decreases |s|
  {
    if s == [] then []
    else if IsSpace(s[0]) then Words(s[1..])
    else
      var w := LeadingWord(s);
      [w] + Words(s[|w|..])
  }

  /** The words of all nodes, node after node. */
  function WordsOfAll(nodes: seq<string>): (ws: seq<string>)
    ensures forall k :: 0 <= k < |ws| ==> IsWord(ws[k])
  {
    if nodes == [] then [] else Words(nodes[0]) + WordsOfAll(nodes[1..])
  }

  /** A string has no words exactly when it is blank. */
  lemma {:induction false} WordsEmptyIffBlank(s: string)
    ensures Words(s) == [] <==> Blank(s)
    decreases |s|
  {
    if s != [] && IsSpace(s[0]) {
      WordsEmptyIffBlank(s[1..]);
      assert Blank(s) <==> Blank(s[1..]) by {
        if Blank(s[1..]) {
          forall i | 0 <= i < |s| ensures IsSpace(s[i]) {
            if i > 0 { assert s[i] == s[1..][i - 1]; }
          }
        }
        if Blank(s) {
          forall i | 0 <= i < |s[1..]| ensures IsSpace(s[1..][i]) {
            assert s[1..][i] == s[i + 1];
          }
        }
      }
    }
  }

  /** Prepending a non-whitespace character either starts a new first word or
      extends the first word. */
  lemma {:induction false} WordsConsChar(x: char, t: string)
    requires !IsSpace(x)
    ensures t == [] || IsSpace(t[0]) ==> Words([x] + t) == [[x]] + Words(t)
    ensures t != [] && !IsSpace(t[0]) ==>
      Words(t) != [] && Words([x] + t) == [[x] + Words(t)[0]] + Words(t)[1..]
  {
    var s := [x] + t;
    assert s[1..] == t;
    var w := LeadingWord(s);
    assert w == [x] + LeadingWord(t);
    assert s[|w|..] == t[|LeadingWord(t)|..];
  }

  /** Collapsing whitespace runs keeps the words. */
  lemma {:induction false} CollapseFromWords(s: string, inRun: bool)
    ensures Words(CollapseFrom(s, inRun)) == Words(s)
    decreases |s|
  {
    if s == [] {
    } else if IsSpace(s[0]) {
      CollapseFromWords(s[1..], true);
      if !inRun {
        var c := CollapseFrom(s[1..], true);
        assert ([' '] + c)[1..] == c;
      }
    } else {
      var c := CollapseFrom(s[1..], false);
      CollapseFromWords(s[1..], false);
      WordsConsChar(s[0], c);
      WordsConsChar(s[0], s[1..]);
      assert s == [s[0]] + s[1..];
    }
  }

  lemma {:induction false} TrimStartWords(s: string)
    ensures Words(TrimStart(s)) == Words(s)
    decreases |s|
  {
    if s != [] && IsSpace(s[0]) {
      TrimStartWords(s[1..]);
    }
  }

  /** The first word does not reach into a suffix that begins with whitespace. */
  lemma {:induction false} LeadingWordAppendSpace(t: string, u: string)
    requires u != [] && IsSpace(u[0])
    ensures LeadingWord(t + u) == LeadingWord(t)
    decreases |t|
  {
    if t == [] {
      assert t + u == u;
    } else if !IsSpace(t[0]) {
      assert (t + u)[1..] == t[1..] + u;
      LeadingWordAppendSpace(t[1..], u);
    }
  }

  /** A whitespace character at the end adds no word. */
  lemma {:induction false} WordsSnocSpace(t: string, c: char)
    requires IsSpace(c)
    ensures Words(t + [c]) == Words(t)
    decreases |t|
  {
    if t == [] {
      assert ([] + [c])[1..] == [];
    } else if IsSpace(t[0]) {
      assert (t + [c])[1..] == t[1..] + [c];
      WordsSnocSpace(t[1..], c);
    } else {
      LeadingWordAppendSpace(t, [c]);
      var w := LeadingWord(t);
      assert (t + [c])[|w|..] == t[|w|..] + [c];
      WordsSnocSpace(t[|w|..], c);
    }
  }

  lemma {:induction false} TrimEndWords(s: string)
    ensures Words(TrimEnd(s)) == Words(s)
    decreases |s|
  {
    if s != [] && IsSpace(s[|s| - 1]) {
      TrimEndWords(s[..|s| - 1]);
      assert s == s[..|s| - 1] + [s[|s| - 1]];
      WordsSnocSpace(s[..|s| - 1], s[|s| - 1]);
    }
  }

  /** Stripping keeps the words. */
  lemma StripWords(s: string)
    ensures Words(Strip(s)) == Words(s)
  {
    TrimStartWords(s);
    TrimEndWords(TrimStart(s));
  }

  /** A suffix or prefix of a squeezed string is squeezed. */
  lemma SqueezedSlices(s: string, i: nat, j: nat)
    requires Squeezed(s) && i <= j <= |s|
    ensures Squeezed(s[i..j])
  {
    forall k | 0 <= k < j - i && IsSpace(s[i..j][k])
      ensures s[i..j][k] == ' ' && (k + 1 < j - i ==> !IsSpace(s[i..j][k + 1]))
    {
      assert s[i..j][k] == s[i + k];
      if k + 1 < j - i { assert s[i..j][k + 1] == s[i + k + 1]; }
    }
  }

  /** Each rewritten fragment is in normal form. */
  lemma NormalizeClean(s: string)
    ensures Clean(Normalize(s))
  {
    var c := Collapse(s);
    var l := TrimStart(c);
    TrimStartSuffix(c);
    SqueezedSlices(c, |c| - |l|, |c|);
    var r := TrimEnd(l);
    TrimEndPrefix(l);
    SqueezedSlices(l, 0, |r|);
  }

  /** Each rewritten fragment has the fragment's words. */
  lemma NormalizeWords(s: string)
    ensures Words(Normalize(s)) == Words(s)
  {
    CollapseFromWords(s, false);
    StripWords(Collapse(s));
  }

  /** In a string in normal form, the first word is followed either by the
      end or by one space and a string in normal form that is not empty. */
  lemma CleanSplitsAfterFirstWord(s: string)
    requires Clean(s) && s != []
    ensures var w := LeadingWord(s);
      |w| == |s| || (|w| + 1 < |s| && s[|w|] == ' ' && Clean(s[|w| + 1..]) && s[|w| + 1..] != []
        && s == w + " " + s[|w| + 1..] && Words(s) == [w] + Words(s[|w| + 1..]))
  {
    var w := LeadingWord(s);
    if |w| < |s| {
      CleanTailAfterWord(s);
      WordsAfterSpace(s, |w|);
    }
  }

  /** After the first word of a clean string that goes on, there is one
      space and a clean non-empty rest. */
  lemma CleanTailAfterWord(s: string)
    requires Clean(s) && s != [] && |LeadingWord(s)| < |s|
    ensures var w := LeadingWord(s);
      |w| + 1 < |s| && s[|w|] == ' ' && Clean(s[|w| + 1..]) && s[|w| + 1..] != []
      && s == w + " " + s[|w| + 1..]
  {
    var w := LeadingWord(s);
    var tail := s[|w| + 1..];
    assert IsSpace(s[|w|]);
    assert |w| + 1 < |s| && !IsSpace(s[|w| + 1]);
    SqueezedSlices(s, |w| + 1, |s|);
    assert tail[0] == s[|w| + 1];
    assert tail[|tail| - 1] == s[|s| - 1];
    assert s[|w|..][1..] == tail;
  }

  /** A word of `s` that is followed by whitespace at index `n` leaves the
      words of the rest after that index. */
  lemma WordsAfterSpace(s: string, n: nat)
    requires s != [] && !IsSpace(s[0]) && n == |LeadingWord(s)| && n < |s|
    ensures Words(s) == [LeadingWord(s)] + Words(s[n + 1..])
  {
    assert s[n..][1..] == s[n + 1..];
  }

  /** A string in normal form is its words joined by single spaces. */
  lemma {:induction false} CleanIsJoinedWords(s: string)
    requires Clean(s)
    ensures Join(" ", Words(s)) == s
    decreases |s|
  {
    if s != [] {
      CleanSplitsAfterFirstWord(s);
      var w := LeadingWord(s);
      if |w| < |s| {
        var tail := s[|w| + 1..];
        CleanIsJoinedWords(tail);
        assert Words(tail) != [];
      } else {
        assert s[|w|..] == [];
      }
    }
  }

  /** Joining words with single spaces yields normal form. */
  lemma {:induction false} JoinedWordsClean(ws: seq<string>)
    requires forall k :: 0 <= k < |ws| ==> IsWord(ws[k])
    ensures Clean(Join(" ", ws))
  {
    if |ws| > 1 {
      JoinedWordsClean(ws[1..]);
      var t := Join(" ", ws[1..]);
      var s := ws[0] + " " + t;
      assert IsWord(ws[1]);
      assert t != [] && !IsSpace(t[0]) by { JoinStartsWithFirst(" ", ws[1..]); assert t[0] == ws[1][0]; }
      forall i | 0 <= i < |s| && IsSpace(s[i]) ensures s[i] == ' ' && (i + 1 < |s| ==> !IsSpace(s[i + 1])) {
        if i > |ws[0]| {
          assert s[i] == t[i - |ws[0]| - 1];
          if i + 1 < |s| { assert s[i + 1] == t[i - |ws[0]|]; }
        } else if i == |ws[0]| {
          assert s[i + 1] == t[0];
        }
      }
      assert s[0] == ws[0][0];
      assert s[|s| - 1] == t[|t| - 1];
    } else if |ws| == 1 {
      assert Join(" ", ws) == ws[0];
    }
  }

  /** Characterisation: a rewritten fragment is the fragment's words joined
      by single spaces (`" ".join(s.split())`). */
  lemma NormalizeIsJoinedWords(s: string)
    ensures Normalize(s) == Join(" ", Words(s))
  {
    NormalizeClean(s);
    CleanIsJoinedWords(Normalize(s));
    NormalizeWords(s);
  }

  /** Rewriting a fragment a second time changes nothing. */
  lemma NormalizeIdempotent(s: string)
    ensures Normalize(Normalize(s)) == Normalize(s)
  {
    NormalizeIsJoinedWords(Normalize(s));
    NormalizeWords(s);
    NormalizeIsJoinedWords(s);
  }

  /** `_txts` keeps a node exactly when it has a non-whitespace character. */
  lemma KeepsIffNotBlank(x: string)
    ensures Keeps(x) <==> !Blank(x)
    ensures Keeps(x) <==> Words(x) != []
  {
    StripWords(x);
    WordsEmptyIffBlank(x);
    var r := Strip(x);
    if r != [] {
      assert !IsSpace(r[0]);
    }
  }

  /** Characterisation of `_txts`: the words of all nodes, in node order,
      joined by single spaces. */
  lemma {:induction false} TxtsIsJoinedWords(nodes: seq<string>)
    ensures Txts(nodes) == Join(" ", WordsOfAll(nodes))
    ensures KeptFragments(nodes) == [] <==> WordsOfAll(nodes) == []
  {
    if nodes != [] {
      var x, rest := nodes[0], nodes[1..];
      TxtsIsJoinedWords(rest);
      KeepsIffNotBlank(x);
      if Keeps(x) {
        var k := KeptFragments(rest);
        var n := Normalize(x);
        NormalizeIsJoinedWords(x);
        assert KeptFragments(nodes) == [n] + k;
        if k != [] {
          JoinAppend(" ", [n], k);
          JoinAppend(" ", Words(x), WordsOfAll(rest));
        } else {
          assert WordsOfAll(nodes) == Words(x);
        }
      } else {
        assert KeptFragments(nodes) == KeptFragments(rest);
        assert WordsOfAll(nodes) == WordsOfAll(rest);
      }
    }
  }

  /** `_txts` never returns leading or trailing whitespace, never two
      whitespace characters in a row, and no whitespace but the plain space. */
  lemma TxtsClean(nodes: seq<string>)
    ensures Clean(Txts(nodes))
  {
    TxtsIsJoinedWords(nodes);
    JoinedWordsClean(WordsOfAll(nodes));
  }

  lemma {:induction false} WordsOfAllEmptyIff(nodes: seq<string>)
    ensures WordsOfAll(nodes) == [] <==> forall i :: 0 <= i < |nodes| ==> Blank(nodes[i])
  {
    if nodes != [] {
      WordsOfAllEmptyIff(nodes[1..]);
      WordsEmptyIffBlank(nodes[0]);
      if forall i :: 0 <= i < |nodes[1..]| ==> Blank(nodes[1..][i]) {
        assert forall i :: 1 <= i < |nodes| ==> Blank(nodes[i]) by {
          forall i | 1 <= i < |nodes| ensures Blank(nodes[i]) { assert nodes[i] == nodes[1..][i - 1]; }
        }
      }
    }
  }

  /** `_txts` returns the empty string exactly when every node is empty or
      whitespace only. */
  lemma TxtsEmptyIff(nodes: seq<string>)
    ensures Txts(nodes) == [] <==> forall i :: 0 <= i < |nodes| ==> Blank(nodes[i])
  {
    TxtsIsJoinedWords(nodes);
    WordsOfAllEmptyIff(nodes);
    if WordsOfAll(nodes) != [] {
      JoinStartsWithFirst(" ", WordsOfAll(nodes));
    }
  }

  lemma {:induction false} WordsOfAllAppend(xs: seq<string>, ys: seq<string>)
    ensures WordsOfAll(xs + ys) == WordsOfAll(xs) + WordsOfAll(ys)
  {
    if xs != [] {
      assert (xs + ys)[1..] == xs[1..] + ys;
      WordsOfAllAppend(xs[1..], ys);
    } else {
      assert xs + ys == ys;
    }
  }

  /** Nodes keep their order: the text of two node lists is the text of the
      first, one space, and the text of the second (either may be absent). */
  lemma TxtsAppend(xs: seq<string>, ys: seq<string>)
    ensures Txts(xs + ys) ==
      if Txts(xs) == [] then Txts(ys)
      else if Txts(ys) == [] then Txts(xs)
      else Txts(xs) + " " + Txts(ys)
  {
    TxtsIsJoinedWords(xs);
    TxtsIsJoinedWords(ys);
    TxtsIsJoinedWords(xs + ys);
    WordsOfAllAppend(xs, ys);
    var a, b := WordsOfAll(xs), WordsOfAll(ys);
    if a != [] { JoinStartsWithFirst(" ", a); }
    if b != [] { JoinStartsWithFirst(" ", b); }
    if a == [] {
      assert a + b == b;
    } else if b == [] {
      assert a + b == a;
    } else {
      JoinAppend(" ", a, b);
    }
  }

  /** `_txts` is idempotent: `_txts([_txts(xs)]) == _txts(xs)`. */
  lemma TxtsIdempotent(nodes: seq<string>)
    ensures Txts([Txts(nodes)]) == Txts(nodes)
  {
    var s := Txts(nodes);
    TxtsClean(nodes);
    TxtsIsJoinedWords([s]);
    assert WordsOfAll([s]) == Words(s) by {
      assert [s][1..] == [];
    }
    CleanIsJoinedWords(s);
  }
}
