/** `normalize_text`: Unicode compatibility decomposition, removal of the
    combining marks, lower-casing, and whitespace collapsing. The
    decomposition and the combining-mark test belong to Python's
    `unicodedata` tables and are parameters here; the whitespace step is
    modelled exactly. */
module Normalize {
  import opened Text

  /** A word in the sense of Python's `str.split()`: a non-empty run of
      non-whitespace characters. */
  predicate IsWord(w: string)
  {
    w != [] && forall i :: 0 <= i < |w| ==> !IsSpace(w[i])
  }

  /** The shape every collapsed string has: no whitespace at either end, no
      whitespace other than `' '`, and never two spaces in a row. */
  predicate Collapsed(r: string)
  {
    && (r == [] || (!IsSpace(r[0]) && !IsSpace(r[|r| - 1])))
    && (forall i :: 0 <= i < |r| && IsSpace(r[i]) ==> r[i] == ' ')
    && (forall i :: 0 <= i < |r| - 1 ==> !(r[i] == ' ' && r[i + 1] == ' '))
  }

  /** `re.sub(r'\s+', ' ', s)`: every maximal whitespace run becomes one space. */
  function SubWhitespaceRuns(s: string): string
    decreases |s|
  {
    if s == [] then []
    else if IsSpace(s[0]) then
      " " + SubWhitespaceRuns(TrimLeft(s, IsSpace))
    else [s[0]] + SubWhitespaceRuns(s[1..])
  }

  /** `re.sub(r'\s+', ' ', s).strip()`. */
  function CollapseWhitespace(s: string): string
  {
    Strip(SubWhitespaceRuns(s))
  }

  /** The characters of `s` that are not combining marks, in order. */
  function DropCombining(s: string, isCombining: char -> bool): (r: string)
    ensures forall i :: 0 <= i < |r| ==> !isCombining(r[i])
    ensures |r| <= |s|
  {
    if s == [] then []
    else if isCombining(s[0]) then DropCombining(s[1..], isCombining)
    else [s[0]] + DropCombining(s[1..], isCombining)
  }

  /** Dropping marks works piece by piece, so the kept characters stay in
      their order. */
  lemma {:induction false} DropCombiningAppend(a: string, b: string, isCombining: char -> bool)
    ensures DropCombining(a + b, isCombining) == DropCombining(a, isCombining) + DropCombining(b, isCombining)
  {
    if a == [] {
      assert a + b == b;
    } else {
      assert (a + b)[0] == a[0] && (a + b)[1..] == a[1..] + b;
      DropCombiningAppend(a[1..], b, isCombining);
    }
  }

  /** Every character that is not a combining mark is kept as often as it
      occurs, and every combining mark is removed. */
  lemma {:induction false} DropCombiningKeeps(s: string, isCombining: char -> bool, c: char)
    ensures multiset(DropCombining(s, isCombining))[c] == if isCombining(c) then 0 else multiset(s)[c]
  {
    if s != [] {
      assert s == [s[0]] + s[1..];
      DropCombiningKeeps(s[1..], isCombining, c);
    }
  }

  /** A text without combining marks is kept whole. */
  lemma {:induction false} DropCombiningNone(s: string, isCombining: char -> bool)
    requires forall i :: 0 <= i < |s| ==> !isCombining(s[i])
    ensures DropCombining(s, isCombining) == s
  {
    if s != [] {
      DropCombiningNone(s[1..], isCombining);
    }
  }

  /** `normalize_text(text)`: decompose with `nfkd`, drop the characters that
      `isCombining` holds of, lower-case, collapse whitespace and trim. The
      result has the collapsed shape and exactly the words of the lower-cased,
      mark-free decomposition. */
  function NormalizeText(nfkd: string -> string, isCombining: char -> bool, text: string): (r: string)
    ensures Collapsed(r)
    ensures Split(r) == Split(Lower(DropCombining(nfkd(text), isCombining)))
  {
    var bare := Lower(DropCombining(nfkd(text), isCombining));
    CollapseIsJoinSplit(bare);
    SplitWordsAreWords(bare);
    JoinWordsCollapsed(Split(bare));
    SplitJoin(Split(bare));
    CollapseWhitespace(bare)
  }

  /** The length of the leading run of non-whitespace characters. */
  function WordLen(s: string): (k: nat)
    ensures k <= |s|
    ensures forall i :: 0 <= i < k ==> !IsSpace(s[i])
    ensures k == |s| || IsSpace(s[k])
  {
    if s == [] || IsSpace(s[0]) then 0 else 1 + WordLen(s[1..])
  }

  /** Python's `s.split()` with no argument: the maximal runs of
      non-whitespace characters, in order. */
  function Split(s: string): seq<string>
    decreases |s|
  {
    if s == [] then []
    else if IsSpace(s[0]) then Split(s[1..])
    else
      var k := WordLen(s);
      [s[..k]] + Split(s[k..])
  }

  lemma {:induction false} SplitWordsAreWords(s: string)
    ensures forall j :: 0 <= j < |Split(s)| ==> IsWord(Split(s)[j])
    decreases |s|
  {
    if s == [] {
    } else if IsSpace(s[0]) {
      SplitWordsAreWords(s[1..]);
    } else {
      SplitWordsAreWords(s[WordLen(s)..]);
    }
  }

  /** Leading whitespace does not change the words. */
  lemma {:induction false} SplitSkipsSpace(s: string)
    ensures Split(TrimLeft(s, IsSpace)) == Split(s)
    decreases |s|
  {
    if s != [] && IsSpace(s[0]) {
      SplitSkipsSpace(s[1..]);
    }
  }

  /** A word followed by nothing or by whitespace is split off whole. */
  lemma {:induction false} WordLenOfWord(w: string, rest: string)
    requires IsWord(w)
    requires rest == [] || IsSpace(rest[0])
    ensures WordLen(w + rest) == |w|
    decreases |w|
  {
    var s := w + rest;
    assert s[0] == w[0];
    assert s[1..] == w[1..] + rest;
    if |w| > 1 {
      WordLenOfWord(w[1..], rest);
    }
  }

  /** A word followed by nothing or by whitespace is copied by the
      substitution. */
  lemma {:induction false} SubRunsWord(w: string, rest: string)
    requires IsWord(w)
    requires rest == [] || IsSpace(rest[0])
    ensures SubWhitespaceRuns(w + rest) == w + SubWhitespaceRuns(rest)
    decreases |w|
  {
    var s := w + rest;
    assert s[0] == w[0];
    assert s[1..] == w[1..] + rest;
    if |w| > 1 {
      SubRunsWord(w[1..], rest);
      assert [w[0]] + w[1..] == w;
    } else {
      assert w[1..] + rest == rest;
    }
  }

  /** The substitution never yields leading whitespace for input without it. */
  lemma SubRunsHead(s: string)
    ensures SubWhitespaceRuns(s) == [] <==> s == []
    ensures s != [] ==> SubWhitespaceRuns(s)[0] == (if IsSpace(s[0]) then ' ' else s[0])
  {
  }

  /** Trimming leading whitespace commutes with the substitution. */
  lemma TrimLeftSubRuns(s: string)
    ensures TrimLeft(SubWhitespaceRuns(s), IsSpace) == SubWhitespaceRuns(TrimLeft(s, IsSpace))
  {
    var t := TrimLeft(s, IsSpace);
    SubRunsHead(t);
    if s != [] && IsSpace(s[0]) {
      var u := SubWhitespaceRuns(t);
      assert SubWhitespaceRuns(s) == " " + u;
      assert (" " + u)[1..] == u;
    } else {
      SubRunsHead(s);
    }
  }

  /** Trimming at the right end only touches the part after the last kept
      character. */
  lemma TrimRightAppend(a: string, b: string, drop: char -> bool)
    requires b != [] && !drop(b[0])
    ensures TrimRight(a + b, drop) == a + TrimRight(b, drop)
    decreases |b|
  {
    if !drop(b[|b| - 1]) {
      assert (a + b)[|a + b| - 1] == b[|b| - 1];
    } else {
      assert (a + b)[..|a + b| - 1] == a + b[..|b| - 1];
      TrimRightAppend(a, b[..|b| - 1], drop);
    }
  }

  /** Trimming the right end of a string without trailing whitespace. */
  lemma TrimRightKeeps(s: string, drop: char -> bool)
    requires s != [] && !drop(s[|s| - 1])
    ensures TrimRight(s, drop) == s
  {
  }

  /** Splitting off the first word of a string that starts with one. */
  lemma FirstWord(s: string)
    requires s != [] && !IsSpace(s[0])
    ensures var k := WordLen(s);
      && s == s[..k] + s[k..]
      && IsWord(s[..k])
      && (s[k..] == [] || IsSpace(s[k..][0]))
      && SubWhitespaceRuns(s) == s[..k] + SubWhitespaceRuns(s[k..])
      && Split(s) == [s[..k]] + Split(s[k..])
  {
    var k := WordLen(s);
    assert s == s[..k] + s[k..];
    SubRunsWord(s[..k], s[k..]);
  }

  /** For input without leading whitespace, the substitution followed by a
      right trim joins the words with single spaces. */
  lemma {:induction false} SubRunsTrimmed(s: string)
    requires s == [] || !IsSpace(s[0])
    ensures TrimRight(SubWhitespaceRuns(s), IsSpace) == Join(" ", Split(s))
    decreases |s|
  {
    if s != [] {
      var k := WordLen(s);
      var w, rest := s[..k], s[k..];
      FirstWord(s);
      if rest == [] {
        assert SubWhitespaceRuns(s) == w;
        TrimRightKeeps(w, IsSpace);
      } else {
        var rest' := TrimLeft(rest, IsSpace);
        TrimLeftFacts(rest, IsSpace);
        SubRunsTrimmed(rest');
        SpaceAfterWord(w, rest);
      }
    }
  }

  /** The step of `SubRunsTrimmed` where whitespace follows the first word. */
  lemma SpaceAfterWord(w: string, rest: string)
    requires IsWord(w) && rest != [] && IsSpace(rest[0])
    requires var rest' := TrimLeft(rest, IsSpace);
      TrimRight(SubWhitespaceRuns(rest'), IsSpace) == Join(" ", Split(rest'))
    ensures TrimRight(w + SubWhitespaceRuns(rest), IsSpace) == Join(" ", [w] + Split(rest))
  {
    var rest' := TrimLeft(rest, IsSpace);
    TrimLeftFacts(rest, IsSpace);
    var u := SubWhitespaceRuns(rest');
    assert SubWhitespaceRuns(rest) == " " + u;
    assert w + SubWhitespaceRuns(rest) == (w + " ") + u;
    SplitSkipsSpace(rest);
    SubRunsAfterWord(w, rest', u);
  }

  /** The step of `SubRunsTrimmed` where whitespace follows the first word:
      `u` is the substitution of what follows the whitespace run. */
  lemma SubRunsAfterWord(w: string, rest': string, u: string)
    requires IsWord(w) && (rest' == [] || !IsSpace(rest'[0]))
    requires u == SubWhitespaceRuns(rest')
    requires TrimRight(u, IsSpace) == Join(" ", Split(rest'))
    ensures TrimRight((w + " ") + u, IsSpace) == Join(" ", [w] + Split(rest'))
  {
    if rest' == [] {
      assert u == [];
      assert (w + " ") + u == w + " ";
      TrailingSpace(w);
    } else {
      MoreWords(w, rest', u);
    }
  }

  /** The step of `SubRunsAfterWord` where more words follow. */
  lemma MoreWords(w: string, rest': string, u: string)
    requires IsWord(w) && rest' != [] && !IsSpace(rest'[0])
    requires u == SubWhitespaceRuns(rest')
    requires TrimRight(u, IsSpace) == Join(" ", Split(rest'))
    ensures TrimRight((w + " ") + u, IsSpace) == Join(" ", [w] + Split(rest'))
  {
    SubRunsHead(rest');
    SplitNonEmpty(rest');
    TrimRightAppend(w + " ", u, IsSpace);
    var ws := [w] + Split(rest');
    assert ws[1..] == Split(rest');
  }

  /** A word followed by one space trims back to the word. */
  lemma TrailingSpace(w: string)
    requires IsWord(w)
    ensures TrimRight(w + " ", IsSpace) == w
  {
    assert (w + " ")[..|w|] == w;
    TrimRightKeeps(w, IsSpace);
  }

  /** A string with a non-whitespace character has at least one word. */
  lemma SplitNonEmpty(s: string)
    requires s != [] && !IsSpace(s[0])
    ensures Split(s) != []
  {
  }

  /** Collapsing whitespace is Python's `' '.join(s.split())`. */
  lemma CollapseIsJoinSplit(s: string)
    ensures CollapseWhitespace(s) == Join(" ", Split(s))
  {
    TrimLeftSubRuns(s);
    SplitSkipsSpace(s);
    TrimLeftFacts(s, IsSpace);
    SubRunsTrimmed(TrimLeft(s, IsSpace));
  }

  /** Words joined with single spaces have the collapsed shape. */
  lemma {:induction false} JoinWordsCollapsed(ws: seq<string>)
    requires forall j :: 0 <= j < |ws| ==> IsWord(ws[j])
    ensures Collapsed(Join(" ", ws))
    ensures ws != [] ==> Join(" ", ws) != [] && Join(" ", ws)[0] == ws[0][0]
  {
    if |ws| > 1 {
      JoinWordsCollapsed(ws[1..]);
      var w, t := ws[0], Join(" ", ws[1..]);
      var r := w + " " + t;
      assert Join(" ", ws) == r;
      forall i | 0 <= i < |r| && IsSpace(r[i])
        ensures r[i] == ' '
      {
        if i > |w| { assert r[i] == t[i - |w| - 1]; }
      }
      forall i | 0 <= i < |r| - 1
        ensures !(r[i] == ' ' && r[i + 1] == ' ')
      {
        if i > |w| { assert r[i] == t[i - |w| - 1] && r[i + 1] == t[i - |w|]; }
      }
    }
  }

  /** Splitting words joined with single spaces gives the words back. */
  lemma {:induction false} SplitJoin(ws: seq<string>)
    requires forall j :: 0 <= j < |ws| ==> IsWord(ws[j])
    ensures Split(Join(" ", ws)) == ws
  {
    if |ws| == 1 {
      WordLenOfWord(ws[0], []);
      assert ws[0] + [] == ws[0];
      assert ws[0][|ws[0]|..] == [];
    } else if |ws| > 1 {
      var w, t := ws[0], Join(" ", ws[1..]);
      var r := w + (" " + t);
      assert Join(" ", ws) == r;
      WordLenOfWord(w, " " + t);
      assert r[..|w|] == w && r[|w|..] == " " + t;
      assert (" " + t)[1..] == t;
      SplitJoin(ws[1..]);
    }
  }

  /** Collapsing has the collapsed shape and keeps the words. */
  lemma CollapseShape(s: string)
    ensures Collapsed(CollapseWhitespace(s))
    ensures Split(CollapseWhitespace(s)) == Split(s)
  {
    CollapseIsJoinSplit(s);
    SplitWordsAreWords(s);
    JoinWordsCollapsed(Split(s));
    SplitJoin(Split(s));
  }

  /** Collapsing twice is collapsing once. */
  lemma CollapseIdempotent(s: string)
    ensures CollapseWhitespace(CollapseWhitespace(s)) == CollapseWhitespace(s)
  {
    CollapseShape(s);
    CollapseIsJoinSplit(s);
    CollapseIsJoinSplit(CollapseWhitespace(s));
  }

  /** Leading whitespace does not change the words. */
  lemma {:induction false} SplitSpaces(gap: string, s: string)
    requires forall i :: 0 <= i < |gap| ==> IsSpace(gap[i])
    ensures Split(gap + s) == Split(s)
  {
    if gap != [] {
      assert (gap + s)[0] == gap[0];
      assert (gap + s)[1..] == gap[1..] + s;
      SplitSpaces(gap[1..], s);
    } else {
      assert gap + s == s;
    }
  }

  /** A word followed by whitespace or nothing is the first word. */
  lemma SplitWord(w: string, rest: string)
    requires IsWord(w)
    requires rest == [] || IsSpace(rest[0])
    ensures Split(w + rest) == [w] + Split(rest)
  {
    WordLenOfWord(w, rest);
    assert (w + rest)[..|w|] == w && (w + rest)[|w|..] == rest;
  }

  /** Two words padded and separated by the same whitespace run collapse to
      the two words with one space between them. */
  lemma CollapseTwoWords(gap: string, w1: string, w2: string)
    requires gap != [] && forall i :: 0 <= i < |gap| ==> IsSpace(gap[i])
    requires IsWord(w1) && IsWord(w2)
    ensures CollapseWhitespace(gap + w1 + gap + w2 + gap) == w1 + " " + w2
  {
    var s := gap + (w1 + (gap + (w2 + gap)));
    assert gap + w1 + gap + w2 + gap == s;
    SplitSpaces(gap, w1 + (gap + (w2 + gap)));
    SplitWord(w1, gap + (w2 + gap));
    SplitSpaces(gap, w2 + gap);
    SplitWord(w2, gap);
    SplitSpaces(gap, []);
    assert gap + [] == gap;
    assert Split([]) == [];
    assert Split(s) == [w1, w2];
    CollapseIsJoinSplit(s);
    assert [w1, w2][1..] == [w2];
  }

  /** A text whose decomposed, mark-free, lower-cased form is a single word
      normalizes to that word. */
  lemma NormalizeWord(nfkd: string -> string, isCombining: char -> bool, text: string)
    requires IsWord(Lower(DropCombining(nfkd(text), isCombining)))
    ensures NormalizeText(nfkd, isCombining, text) == Lower(DropCombining(nfkd(text), isCombining))
  {
    var bare := Lower(DropCombining(nfkd(text), isCombining));
    CollapseIsJoinSplit(bare);
    SplitWord(bare, []);
    assert bare + [] == bare;
  }

  /** A trailing combining mark is dropped. */
  lemma {:induction false} DropTrailingMark(s: string, m: char, isCombining: char -> bool)
    requires forall i :: 0 <= i < |s| ==> !isCombining(s[i])
    requires isCombining(m)
    ensures DropCombining(s + [m], isCombining) == s
  {
    if s == [] {
      assert [m][1..] == [];
    } else {
      assert (s + [m])[1..] == s[1..] + [m];
      DropTrailingMark(s[1..], m, isCombining);
    }
  }

  /** A non-empty run of lower-case ASCII letters is a word. */
  lemma LettersWord(s: string)
    requires s != [] && forall i :: 0 <= i < |s| ==> 'a' <= s[i] <= 'z'
    ensures IsWord(s)
  {
    forall i | 0 <= i < |s|
      ensures !IsSpace(s[i])
    {
      assert 'a' <= s[i] <= 'z';
    }
  }

  /** A text of ASCII letters, left alone by the decomposition, normalizes
      to its lower-case form. */
  lemma AsciiNormalized(nfkd: string -> string, isCombining: char -> bool, text: string, lower: string)
    requires nfkd(text) == text
    requires forall i :: 0 <= i < |text| ==> !isCombining(text[i])
    requires Lower(text) == lower
    requires lower != [] && forall i :: 0 <= i < |lower| ==> 'a' <= lower[i] <= 'z'
    ensures NormalizeText(nfkd, isCombining, text) == lower
  {
    DropCombiningNone(text, isCombining);
    LettersWord(lower);
    NormalizeWord(nfkd, isCombining, text);
  }

  lemma LowerKeyword()
    ensures Lower("ASSINATURA") == "assinatura"
    ensures Lower("Assinatura") == "assinatura"
  {
    assert Lower("ASSINATURA") == "assinatura";
    assert "Assinatura" == "A" + "ssinatura";
    LowerAppend("A", "ssinatura");
    LowerOfLower("ssinatura");
  }

  /** The upper-case keyword normalizes to the keyword, for any
      decomposition that leaves ASCII letters alone. */
  lemma UpperKeywordNormalized(nfkd: string -> string, isCombining: char -> bool)
    requires nfkd("ASSINATURA") == "ASSINATURA"
    requires forall c :: 'A' <= c <= 'z' ==> !isCombining(c)
    ensures NormalizeText(nfkd, isCombining, "ASSINATURA") == "assinatura"
  {
    LowerKeyword();
    AsciiNormalized(nfkd, isCombining, "ASSINATURA", "assinatura");
  }

  /** The capitalized keyword normalizes to the keyword as well. */
  lemma CapitalKeywordNormalized(nfkd: string -> string, isCombining: char -> bool)
    requires nfkd("Assinatura") == "Assinatura"
    requires forall c :: 'A' <= c <= 'z' ==> !isCombining(c)
    ensures NormalizeText(nfkd, isCombining, "Assinatura") == "assinatura"
  {
    LowerKeyword();
    AsciiNormalized(nfkd, isCombining, "Assinatura", "assinatura");
  }

  /** An accent that the decomposition splits off as a combining mark is
      removed: `Café` normalizes to `cafe`. */
  lemma AccentRemoved(nfkd: string -> string, isCombining: char -> bool)
    requires nfkd("Caf\U{E9}") == "Cafe\U{301}"
    requires isCombining('\U{301}')
    requires forall c :: 'A' <= c <= 'z' ==> !isCombining(c)
    ensures NormalizeText(nfkd, isCombining, "Caf\U{E9}") == "cafe"
  {
    assert "Cafe\U{301}" == "Cafe" + ['\U{301}'];
    DropTrailingMark("Cafe", '\U{301}', isCombining);
    assert Lower("Cafe") == "cafe";
    LettersWord("cafe");
    NormalizeWord(nfkd, isCombining, "Caf\U{E9}");
  }
}
