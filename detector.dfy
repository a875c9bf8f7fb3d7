/** `find_signature_lines`: finds the signature anchors on one page's word
    list and pairs each with the text of the line right below it. */
module Detector {
  import opened Text

  /** A word as the document engine reports it: its box (y grows downwards)
      and its text. */
  datatype Word = Word(x0: real, y0: real, x1: real, y1: real, text: string)

  /** One tuple of `page.get_text("words")`: it has `arity` fields, and when
      `arity >= 5` its first five fields are `word`. */
  datatype Entry = Entry(arity: nat, word: Word)

  datatype Rect = Rect(x0: real, y0: real, x1: real, y1: real)

  /** One detected signature line. `type` is always `"signature_line"` and is
      not represented. */
  datatype Region = Region(rect: Rect, text: string, textBelow: string, hasDescription: bool)

  /** The keyword searched for in the lower-cased word text. */
  const Keyword := "assinatura"
  /** The least length of an underscore or hyphen rule. */
  const RuleMinLength := 5
  /** A line counts as the anchor's description when it starts less than this
      far below the anchor's bottom edge. */
  const DescriptionGap: real := 20.0

  /** The anchor test of `find_signature_lines`: a rule of at least five
      underscores, a rule of at least five hyphens, or a word whose lower-case
      form contains the keyword. */
  predicate IsAnchor(text: string)
  {
    || (StripChar(text, '_') == "" && |text| >= RuleMinLength)
    || (StripChar(text, '-') == "" && |text| >= RuleMinLength)
    || Contains(Lower(text), Keyword)
  }

  /** `text` consists of the character `c` only. */
  predicate AllOf(text: string, c: char)
  {
    forall i :: 0 <= i < |text| ==> text[i] == c
  }

  /** The anchor test, restated without `strip`. */
  lemma AnchorIff(text: string)
    ensures IsAnchor(text) <==>
      || (AllOf(text, '_') && |text| >= 5)
      || (AllOf(text, '-') && |text| >= 5)
      || Contains(Lower(text), "assinatura")
  {
    StripCharEmpty(text, '_');
    StripCharEmpty(text, '-');
  }

  /** A rule of `n` copies of `c`. */
  lemma RuleOfLength(n: nat, c: char)
    requires n >= 5 && (c == '_' || c == '-')
    ensures IsAnchor(seq(n, _ => c))
  {
    var rule := seq(n, _ => c);
    StripCharEmpty(rule, c);
    assert StripChar(rule, c) == "" && |rule| >= RuleMinLength;
  }

  /** Rules of five or more underscores or hyphens are anchors, whatever
      their length. */
  lemma RuleExamples(n: nat)
    requires n >= 5
    ensures IsAnchor(seq(n, _ => '_')) && IsAnchor(seq(n, _ => '-'))
    ensures IsAnchor("_____") && IsAnchor("-----")
  {
    RuleOfLength(n, '_');
    RuleOfLength(n, '-');
    RuleOfLength(5, '_');
    RuleOfLength(5, '-');
    assert seq(5, _ => '_') == "_____";
    assert seq(5, _ => '-') == "-----";
  }

  /** Short rules, mixed rules and the empty text are not anchors. */
  lemma NonAnchorExamples()
    ensures !IsAnchor("__") && !IsAnchor("----") && !IsAnchor("__--_") && !IsAnchor("")
  {
    ShortRulesNotAnchors();
    MixedRuleNotAnchor();
  }

  lemma ShortRulesNotAnchors()
    ensures !IsAnchor("__") && !IsAnchor("----") && !IsAnchor("")
  {
    AnchorIff("__");
    AnchorIff("----");
    AnchorIff("");
  }

  lemma MixedRuleNotAnchor()
    ensures !IsAnchor("__--_")
  {
    var mixed := "__--_";
    StripCharEmpty(mixed, '_');
    StripCharEmpty(mixed, '-');
    assert mixed[2] != '_' && mixed[0] != '-';
    assert |Lower(mixed)| < |Keyword|;
  }

  /** The keyword is found in any letter case and with punctuation around it. */
  lemma KeywordExamples()
    ensures IsAnchor("Assinatura:") && IsAnchor("ASSINATURA") && IsAnchor("(assinatura)")
  {
    assert Lower("Assinatura:")[0..10] == Keyword;
    assert OccursAt(Lower("Assinatura:"), Keyword, 0);
    assert Lower("ASSINATURA")[0..10] == Keyword;
    assert OccursAt(Lower("ASSINATURA"), Keyword, 0);
    assert Lower("(assinatura)")[1..11] == Keyword;
    assert OccursAt(Lower("(assinatura)"), Keyword, 1);
  }

  /** The words of the entries that have at least five fields, in order. */
  function Usable(entries: seq<Entry>): (ws: seq<Word>)
    ensures |ws| <= |entries|
  {
    if entries == [] then []
    else
      var last := entries[|entries| - 1];
      Usable(entries[..|entries| - 1]) + (if last.arity >= 5 then [last.word] else [])
  }

  lemma {:induction false} UsableAppend(a: seq<Entry>, b: seq<Entry>)
    ensures Usable(a + b) == Usable(a) + Usable(b)
    decreases |b|
  {
    if b == [] {
      assert a + b == a;
    } else {
      assert (a + b)[..|a + b| - 1] == a + b[..|b| - 1];
      UsableAppend(a, b[..|b| - 1]);
    }
  }

  /** The words of `ws` whose top edge is exactly `y`, in their order. */
  function Line(ws: seq<Word>, y: real): seq<Word>
  {
    if ws == [] then []
    else
      var last := ws[|ws| - 1];
      Line(ws[..|ws| - 1], y) + (if last.y0 == y then [last] else [])
  }

  /** The distinct top edges of `ws`. */
  function Ys(ws: seq<Word>): set<real>
  {
    set w | w in ws :: w.y0
  }

  /** `words_by_y`: each distinct top edge mapped to its line. */
  function Grouped(ws: seq<Word>): map<real, seq<Word>>
  {
    map y | y in Ys(ws) :: Line(ws, y)
  }

  /** The words of `ws` that are anchors, in order. */
  function AnchorWords(ws: seq<Word>): seq<Word>
  {
    if ws == [] then []
    else
      var last := ws[|ws| - 1];
      AnchorWords(ws[..|ws| - 1]) + (if IsAnchor(last.text) then [last] else [])
  }

  /** Every selected word is an anchor of the list. */
  lemma {:induction false} AnchorWordsAreAnchors(ws: seq<Word>)
    ensures forall w :: w in AnchorWords(ws) ==> w in ws && IsAnchor(w.text)
  {
    if ws != [] {
      AnchorWordsAreAnchors(ws[..|ws| - 1]);
    }
  }

  lemma {:induction false} LineAppend(a: seq<Word>, b: seq<Word>, y: real)
    ensures Line(a + b, y) == Line(a, y) + Line(b, y)
    decreases |b|
  {
    if b == [] {
      assert a + b == a;
    } else {
      assert (a + b)[..|a + b| - 1] == a + b[..|b| - 1];
      LineAppend(a, b[..|b| - 1], y);
    }
  }

  lemma {:induction false} LineAbsent(ws: seq<Word>, y: real)
    requires y !in Ys(ws)
    ensures Line(ws, y) == []
  {
    if ws != [] {
      assert Ys(ws[..|ws| - 1]) <= Ys(ws);
      LineAbsent(ws[..|ws| - 1], y);
    }
  }

  /** Selecting one line of a line. */
  lemma {:induction false} LineOfLine(ws: seq<Word>, y: real, z: real)
    ensures Line(Line(ws, y), z) == if y == z then Line(ws, y) else []
  {
    if ws != [] {
      var last := ws[|ws| - 1];
      LineOfLine(ws[..|ws| - 1], y, z);
      LineAppend(Line(ws[..|ws| - 1], y), if last.y0 == y then [last] else [], z);
    }
  }

  /** Selecting the anchors commutes with selecting a line. */
  lemma {:induction false} AnchorsOfLine(ws: seq<Word>, y: real)
    ensures AnchorWords(Line(ws, y)) == Line(AnchorWords(ws), y)
  {
    if ws != [] {
      var init, last := ws[..|ws| - 1], ws[|ws| - 1];
      AnchorsOfLine(init, y);
      AnchorsAppend(Line(init, y), if last.y0 == y then [last] else []);
      LineAppend(AnchorWords(init), if IsAnchor(last.text) then [last] else [], y);
    }
  }

  lemma {:induction false} AnchorsAppend(a: seq<Word>, b: seq<Word>)
    ensures AnchorWords(a + b) == AnchorWords(a) + AnchorWords(b)
    decreases |b|
  {
    if b == [] {
      assert a + b == a;
    } else {
      assert (a + b)[..|a + b| - 1] == a + b[..|b| - 1];
      AnchorsAppend(a, b[..|b| - 1]);
    }
  }

  /** One step of building `words_by_y`. */
  lemma GroupedStep(ws: seq<Word>, w: Word)
    ensures Grouped(ws + [w]) ==
      Grouped(ws)[w.y0 := (if w.y0 in Grouped(ws) then Grouped(ws)[w.y0] else []) + [w]]
  {
    var g, g' := Grouped(ws), Grouped(ws + [w]);
    var h := g[w.y0 := (if w.y0 in g then g[w.y0] else []) + [w]];
    assert Ys(ws + [w]) == Ys(ws) + {w.y0};
    forall y | y in g'
      ensures g'[y] == h[y]
    {
      LineAppend(ws, [w], y);
      assert (ws + [w])[..|ws|] == ws;
      if y !in Ys(ws) {
        LineAbsent(ws, y);
      }
    }
  }

  /** Every non-empty finite set of reals has a least element. */
  lemma {:induction false} MinExists(s: set<real>)
    requires s != {}
    ensures exists m :: m in s && forall y :: y in s ==> m <= y
    decreases |s|
  {
    if forall y :: y !in s { assert false; }
    var x :| x in s;
    var rest := s - {x};
    if rest == {} {
      assert s == {x};
    } else {
      MinExists(rest);
      var m :| m in rest && forall y :: y in rest ==> m <= y;
      var least := if x < m then x else m;
      forall y | y in s
        ensures least <= y
      {
        if y != x { assert y in rest; }
      }
      assert least in s;
    }
  }

  /** The least element of a non-empty finite set of reals. */
  function Least(s: set<real>): (m: real)
    requires s != {}
    ensures m in s && forall y :: y in s ==> m <= y
  {
    MinExists(s);
    var m :| m in s && forall y :: y in s ==> m <= y;
    m
  }

  /** `sorted(keys)`: the elements of `s` in strictly increasing order. */
  function SortedSeq(s: set<real>): (r: seq<real>)
    ensures |r| == |s|
    ensures forall y :: y in r <==> y in s
    ensures forall i, j :: 0 <= i < j < |r| ==> r[i] < r[j]
    decreases s
  {
    if s == {} then []
    else
      var m := Least(s);
      [m] + SortedSeq(s - {m})
  }

  /** The texts of a line's words, in order. */
  function Texts(line: seq<Word>): seq<string>
  {
    seq(|line|, k requires 0 <= k < |line| => line[k].text)
  }

  /** `text_below` for anchor `w` on line `i`: the next line's texts joined
      with single spaces when that line starts less than 20 units below `w`'s
      bottom edge, and empty otherwise. */
  function TextBelow(ws: seq<Word>, ys: seq<real>, i: nat, w: Word): string
    requires i < |ys|
  {
    if i + 1 < |ys| && ys[i + 1] - w.y1 < DescriptionGap then Join(" ", Texts(Line(ws, ys[i + 1])))
    else ""
  }

  /** The region recorded for anchor `w` with description `below`. */
  function MakeRegion(w: Word, below: string): Region
  {
    Region(Rect(w.x0, w.y0, w.x1, w.y1), w.text, below, Strip(below) != "")
  }

  /** The region of word `w` on line `i`, if `w` is an anchor. */
  function RegionIf(ws: seq<Word>, ys: seq<real>, i: nat, w: Word): seq<Region>
    requires i < |ys|
  {
    if IsAnchor(w.text) then [MakeRegion(w, TextBelow(ws, ys, i, w))] else []
  }

  /** The regions of the words `line` of line `i`. */
  function LineRegions(ws: seq<Word>, ys: seq<real>, i: nat, line: seq<Word>): seq<Region>
    requires i < |ys|
  {
    if line == [] then []
    else LineRegions(ws, ys, i, line[..|line| - 1]) + RegionIf(ws, ys, i, line[|line| - 1])
  }

  /** The regions of lines `0 .. n - 1`. */
  function RegionsBefore(ws: seq<Word>, ys: seq<real>, n: nat): seq<Region>
    requires n <= |ys|
  {
    if n == 0 then []
    else RegionsBefore(ws, ys, n - 1) + LineRegions(ws, ys, n - 1, Line(ws, ys[n - 1]))
  }

  /** What `find_signature_lines` returns for a page whose words are `entries`. */
  function Detect(entries: seq<Entry>): seq<Region>
  {
    var ws := Usable(entries);
    var ys := SortedSeq(Ys(ws));
    RegionsBefore(ws, ys, |ys|)
  }

  /** One step of the scan over the entries. */
  lemma UsableStep(entries: seq<Entry>, k: nat)
    requires k < |entries|
    ensures Usable(entries[..k + 1]) ==
      Usable(entries[..k]) + (if entries[k].arity >= 5 then [entries[k].word] else [])
  {
    assert entries[..k + 1][..k] == entries[..k];
  }

  /** One step of the scan over a line's words. */
  lemma LineRegionsStep(ws: seq<Word>, ys: seq<real>, i: nat, line: seq<Word>, j: nat)
    requires i < |ys| && j < |line|
    ensures LineRegions(ws, ys, i, line[..j + 1]) == LineRegions(ws, ys, i, line[..j]) + RegionIf(ws, ys, i, line[j])
  {
    assert line[..j + 1][..j] == line[..j];
  }

  /** The first loop of `find_signature_lines`: builds `words_by_y` from the
      entries with at least five fields. */
  method GroupByTop(entries: seq<Entry>) returns (wordsByY: map<real, seq<Word>>)
    ensures wordsByY == Grouped(Usable(entries))
    ensures wordsByY.Keys == Ys(Usable(entries))
  {
    wordsByY := map[];
    assert Usable(entries[..0]) == [];
    assert Grouped([]) == map[];
    for k := 0 to |entries|
      invariant wordsByY == Grouped(Usable(entries[..k]))
    {
      var e := entries[k];
      UsableStep(entries, k);
      if e.arity >= 5 {
        var w := e.word;
        GroupedStep(Usable(entries[..k]), w);
        var line := if w.y0 in wordsByY then wordsByY[w.y0] else [];
        wordsByY := wordsByY[w.y0 := line + [w]];
      } else {
        assert Usable(entries[..k + 1]) == Usable(entries[..k]);
      }
    }
    assert entries[..|entries|] == entries;
  }

  /** The inner loop of `find_signature_lines`: the regions of the anchors on
      line `i`, in the line's order. */
  method ScanLine(ghost ws: seq<Word>, wordsByY: map<real, seq<Word>>, ys: seq<real>, i: nat)
    returns (regions: seq<Region>)
    requires i < |ys|
    requires forall k :: 0 <= k < |ys| ==> ys[k] in wordsByY && wordsByY[ys[k]] == Line(ws, ys[k])
    ensures regions == LineRegions(ws, ys, i, Line(ws, ys[i]))
  {
    var line := wordsByY[ys[i]];
    regions := [];
    assert line[..0] == [];
    for j := 0 to |line|
      invariant regions == LineRegions(ws, ys, i, line[..j])
    {
      var w := line[j];
      if IsAnchor(w.text) {
        var below := "";
        if i + 1 < |ys| {
          var nextY := ys[i + 1];
          if nextY - w.y1 < DescriptionGap {
            below := Join(" ", Texts(wordsByY[nextY]));
            assert below == TextBelow(ws, ys, i, w);
          } else {
            assert TextBelow(ws, ys, i, w) == "";
          }
        } else {
          assert TextBelow(ws, ys, i, w) == "";
        }
        regions := regions + [MakeRegion(w, below)];
      }
      LineRegionsStep(ws, ys, i, line, j);
    }
    assert line[..|line|] == line;
  }

  /** `find_signature_lines(page)`: groups the words by top edge, walks the
      lines from the top, and emits one region per anchor. */
  method FindSignatureLines(entries: seq<Entry>) returns (areas: seq<Region>)
    ensures areas == Detect(entries)
  {
    var wordsByY := GroupByTop(entries);
    ghost var ws := Usable(entries);
    var ys := SortedSeq(wordsByY.Keys);
    assert forall k :: 0 <= k < |ys| ==> ys[k] in wordsByY && wordsByY[ys[k]] == Line(ws, ys[k]);
    areas := [];
    for i := 0 to |ys|
      invariant areas == RegionsBefore(ws, ys, i)
    {
      var regions := ScanLine(ws, wordsByY, ys, i);
      areas := areas + regions;
    }
  }
}

module DetectorFacts {
  import opened Text
  import opened Detector

  /** Every word of a line lies on that line and comes from the word list. */
  lemma {:induction false} LineTop(ws: seq<Word>, y: real)
    ensures forall w :: w in Line(ws, y) ==> w in ws && w.y0 == y
  {
    if ws != [] {
      LineTop(ws[..|ws| - 1], y);
    }
  }

  /** The top edges strictly below `y` (larger, since y grows downwards). */
  function TopsBelow(ws: seq<Word>, y: real): set<real>
  {
    set z | z in Ys(ws) && z > y
  }

  /** Reference definition of an anchor's description: the words of the
      nearest line below the anchor's top edge, joined with single spaces, when
      that line starts less than `DescriptionGap` below the anchor's bottom
      edge; the empty text when there is no such line or it is farther. */
  function NextLineText(ws: seq<Word>, w: Word): string
  {
    var below := TopsBelow(ws, w.y0);
    if below == {} then ""
    else
      var next := Least(below);
      if next - w.y1 < DescriptionGap then Join(" ", Texts(Line(ws, next))) else ""
  }

  /** The region anchor `w` yields according to the reference definition. */
  function Describe(ws: seq<Word>, w: Word): Region
  {
    MakeRegion(w, NextLineText(ws, w))
  }

  /** The region each anchor of `a` yields, in the order of `a`. */
  function Described(ws: seq<Word>, a: seq<Word>): (rs: seq<Region>)
    ensures |rs| == |a|
  {
    seq(|a|, k requires 0 <= k < |a| => Describe(ws, a[k]))
  }

  /** The words of lines `ys[0] .. ys[n - 1]` of `a`, line after line. */
  function Lines(a: seq<Word>, ys: seq<real>, n: nat): seq<Word>
    requires n <= |ys|
  {
    if n == 0 then [] else Lines(a, ys, n - 1) + Line(a, ys[n - 1])
  }

  /** The anchors of `ws` in the order the scan meets them: line after line
      from the top, left to right within a line as the engine listed them. */
  function ReadingOrder(ws: seq<Word>): seq<Word>
  {
    var ys := SortedSeq(Ys(ws));
    Lines(AnchorWords(ws), ys, |ys|)
  }

  predicate Increasing(ys: seq<real>)
  {
    forall i, j :: 0 <= i < j < |ys| ==> ys[i] < ys[j]
  }

  /** Top edges never decrease along `a`. */
  predicate TopsSorted(a: seq<Word>)
  {
    forall p, q :: 0 <= p < q < |a| ==> a[p].y0 <= a[q].y0
  }

  /** In an increasing enumeration of `s`, the element after `ys[i]` is the
      least element of `s` above `ys[i]`, and there is none after the last. */
  lemma NextOfSorted(s: set<real>, ys: seq<real>, i: nat)
    requires forall y :: y in ys <==> y in s
    requires Increasing(ys) && i < |ys|
    ensures i + 1 < |ys| ==> ys[i + 1] in s && ys[i + 1] > ys[i]
    ensures i + 1 < |ys| ==> forall z :: z in s && z > ys[i] ==> ys[i + 1] <= z
    ensures i + 1 == |ys| ==> forall z :: z in s ==> z <= ys[i]
  {
    if i + 1 < |ys| {
      assert ys[i + 1] in ys;
    }
    forall z | z in s
      ensures z > ys[i] ==> i + 1 < |ys| && ys[i + 1] <= z
    {
      var k :| 0 <= k < |ys| && ys[k] == z;
      if k < i {
        assert ys[k] < ys[i];
      } else if k > i + 1 {
        assert ys[i + 1] < ys[k];
      }
    }
  }

  /** The next line in sorted order is the nearest line below. */
  lemma TextBelowIsNext(ws: seq<Word>, ys: seq<real>, i: nat, w: Word)
    requires ys == SortedSeq(Ys(ws)) && i < |ys| && w.y0 == ys[i]
    ensures TextBelow(ws, ys, i, w) == NextLineText(ws, w)
  {
    var below := TopsBelow(ws, w.y0);
    NextOfSorted(Ys(ws), ys, i);
    if i + 1 < |ys| {
      assert ys[i + 1] in below;
      var m := Least(below);
      assert m <= ys[i + 1] && ys[i + 1] <= m;
    } else {
      assert below == {};
    }
  }

  lemma {:induction false} DescribedAppend(ws: seq<Word>, a: seq<Word>, b: seq<Word>)
    ensures Described(ws, a + b) == Described(ws, a) + Described(ws, b)
  {
    var l, r := Described(ws, a + b), Described(ws, a) + Described(ws, b);
    forall k | 0 <= k < |l|
      ensures l[k] == r[k]
    {
      if k < |a| {
        assert (a + b)[k] == a[k];
      } else {
        assert (a + b)[k] == b[k - |a|];
      }
    }
  }

  /** Adding one word to the words of a line already scanned. */
  lemma LineRegionsDescribedStep(ws: seq<Word>, ys: seq<real>, i: nat, line: seq<Word>)
    requires i < |ys| && line != []
    requires TextBelow(ws, ys, i, line[|line| - 1]) == NextLineText(ws, line[|line| - 1])
    requires LineRegions(ws, ys, i, line[..|line| - 1]) == Described(ws, AnchorWords(line[..|line| - 1]))
    ensures LineRegions(ws, ys, i, line) == Described(ws, AnchorWords(line))
  {
    var init, last := line[..|line| - 1], line[|line| - 1];
    var one := if IsAnchor(last.text) then [last] else [];
    assert RegionIf(ws, ys, i, last) == Described(ws, one);
    DescribedAppend(ws, AnchorWords(init), one);
  }

  /** The regions of one line are those of its anchors, each described by the
      nearest line below, provided the next line in `ys` is the nearest line
      below each of its words. */
  lemma {:induction false} LineRegionsDescribed(ws: seq<Word>, ys: seq<real>, i: nat, line: seq<Word>)
    requires i < |ys|
    requires forall w :: w in line ==> TextBelow(ws, ys, i, w) == NextLineText(ws, w)
    ensures LineRegions(ws, ys, i, line) == Described(ws, AnchorWords(line))
  {
    if line == [] {
      assert Described(ws, []) == [];
    } else {
      LineRegionsDescribed(ws, ys, i, line[..|line| - 1]);
      LineRegionsDescribedStep(ws, ys, i, line);
    }
  }

  /** The regions of line `i` are those of its anchors. */
  lemma LineRegionsOfLine(ws: seq<Word>, ys: seq<real>, i: nat)
    requires ys == SortedSeq(Ys(ws)) && i < |ys|
    ensures LineRegions(ws, ys, i, Line(ws, ys[i])) == Described(ws, Line(AnchorWords(ws), ys[i]))
  {
    var line := Line(ws, ys[i]);
    LineTop(ws, ys[i]);
    forall w | w in line
      ensures TextBelow(ws, ys, i, w) == NextLineText(ws, w)
    {
      TextBelowIsNext(ws, ys, i, w);
    }
    LineRegionsDescribed(ws, ys, i, line);
    AnchorsOfLine(ws, ys[i]);
  }

  /** The regions of line `i` are those of its anchors, described by the
      reference definition. */
  predicate LineDescribed(ws: seq<Word>, ys: seq<real>, i: nat)
    requires i < |ys|
  {
    LineRegions(ws, ys, i, Line(ws, ys[i])) == Described(ws, Line(AnchorWords(ws), ys[i]))
  }

  /** Adding line `n - 1` to the regions of the lines above it. */
  lemma RegionsBeforeStep(ws: seq<Word>, ys: seq<real>, n: nat)
    requires 0 < n <= |ys| && LineDescribed(ws, ys, n - 1)
    requires RegionsBefore(ws, ys, n - 1) == Described(ws, Lines(AnchorWords(ws), ys, n - 1))
    ensures RegionsBefore(ws, ys, n) == Described(ws, Lines(AnchorWords(ws), ys, n))
  {
    var a := AnchorWords(ws);
    DescribedAppend(ws, Lines(a, ys, n - 1), Line(a, ys[n - 1]));
  }

  /** `find_signature_lines` yields one region per anchor, in reading order,
      each carrying the anchor's box and text and the text of the nearest line
      below it. */
  lemma DetectDescribed(entries: seq<Entry>)
    ensures Detect(entries) == Described(Usable(entries), ReadingOrder(Usable(entries)))
  {
    var ws := Usable(entries);
    var ys := SortedSeq(Ys(ws));
    var a := AnchorWords(ws);
    assert Described(ws, []) == [];
    var n := 0;
    while n < |ys|
      invariant n <= |ys|
      invariant RegionsBefore(ws, ys, n) == Described(ws, Lines(a, ys, n))
    {
      LineRegionsOfLine(ws, ys, n);
      RegionsBeforeStep(ws, ys, n + 1);
      n := n + 1;
    }
  }

  lemma PrefixSnoc(ys: seq<real>, n: nat)
    requires 0 < n <= |ys|
    ensures ys[..n] == ys[..n - 1] + [ys[n - 1]]
  {
  }

  /** Below the `n`-th element of an increasing sequence nothing before it
      equals it. */
  lemma NotEarlier(ys: seq<real>, n: nat)
    requires Increasing(ys) && 0 < n <= |ys|
    ensures ys[n - 1] !in ys[..n - 1]
  {
    forall k | 0 <= k < n - 1
      ensures ys[k] != ys[n - 1]
    {
      assert ys[k] < ys[n - 1];
    }
  }

  /** A line holds each word of its top edge as often as the list does, and
      no other word. */
  lemma {:induction false} LineCount(a: seq<Word>, y: real, w: Word)
    ensures multiset(Line(a, y))[w] == if w.y0 == y then multiset(a)[w] else 0
    decreases |a|
  {
    if a != [] {
      var init := a[..|a| - 1];
      assert a == init + [a[|a| - 1]];
      LineCount(init, y, w);
    }
  }

  /** The anchors of `ws` are selected as often as they occur, and no other
      word is. */
  lemma {:induction false} AnchorWordsCount(ws: seq<Word>, w: Word)
    ensures multiset(AnchorWords(ws))[w] == if IsAnchor(w.text) then multiset(ws)[w] else 0
    decreases |ws|
  {
    if ws != [] {
      var init := ws[..|ws| - 1];
      assert ws == init + [ws[|ws| - 1]];
      AnchorWordsCount(init, w);
    }
  }

  /** `words_by_y[y]` holds exactly the words of `ws` whose top edge is `y`:
      each of them as often as `ws` does, and nothing else. */
  lemma GroupedContents(ws: seq<Word>, y: real, w: Word)
    ensures y in Grouped(ws) <==> exists v :: v in ws && v.y0 == y
    ensures y in Grouped(ws) && w in Grouped(ws)[y] ==> w in ws && w.y0 == y
    ensures y in Grouped(ws) && w.y0 == y ==> multiset(Grouped(ws)[y])[w] == multiset(ws)[w]
  {
    if y in Grouped(ws) {
      LineTop(ws, y);
      LineCount(ws, y, w);
    }
  }

  /** How often the first `n` lines hold `w`. */
  predicate LinesCounted(a: seq<Word>, ys: seq<real>, n: nat, w: Word)
    requires n <= |ys|
  {
    multiset(Lines(a, ys, n))[w] == if w.y0 in ys[..n] then multiset(a)[w] else 0
  }

  lemma LinesCountStep(a: seq<Word>, ys: seq<real>, n: nat, w: Word)
    requires Increasing(ys) && 0 < n <= |ys|
    requires LinesCounted(a, ys, n - 1, w)
    ensures LinesCounted(a, ys, n, w)
  {
    LineCount(a, ys[n - 1], w);
    PrefixSnoc(ys, n);
    NotEarlier(ys, n);
  }

  /** The first `n` lines hold each word whose top edge is among the first
      `n` ones as often as `a` does, and no other word. */
  lemma LinesCount(a: seq<Word>, ys: seq<real>, n: nat, w: Word)
    requires Increasing(ys) && n <= |ys|
    ensures LinesCounted(a, ys, n, w)
  {
    assert Lines(a, ys, 0) == [] && ys[..0] == [];
    var k := 0;
    while k < n
      invariant k <= n
      invariant LinesCounted(a, ys, k, w)
    {
      LinesCountStep(a, ys, k + 1, w);
      k := k + 1;
    }
  }

  /** Taking every line, in any increasing order of the top edges that covers
      them all, rearranges `a` without losing or repeating a word. */
  lemma LinesPermutation(a: seq<Word>, ys: seq<real>)
    requires Increasing(ys)
    requires forall w :: w in a ==> w.y0 in ys
    ensures multiset(Lines(a, ys, |ys|)) == multiset(a)
  {
    forall w
      ensures multiset(Lines(a, ys, |ys|))[w] == multiset(a)[w]
    {
      LinesCount(a, ys, |ys|, w);
      assert ys[..|ys|] == ys;
    }
  }

  /** The reading order holds every anchor exactly once. */
  lemma ReadingOrderPermutation(ws: seq<Word>)
    ensures multiset(ReadingOrder(ws)) == multiset(AnchorWords(ws))
    ensures |ReadingOrder(ws)| == |AnchorWords(ws)|
  {
    var ys := SortedSeq(Ys(ws));
    AnchorWordsAreAnchors(ws);
    forall w | w in AnchorWords(ws)
      ensures w.y0 in ys
    {
      assert w.y0 in Ys(ws);
    }
    LinesPermutation(AnchorWords(ws), ys);
    assert |multiset(ReadingOrder(ws))| == |multiset(AnchorWords(ws))|;
  }

  /** Concatenating lines in increasing order of top edge keeps top edges
      sorted. */
  lemma {:induction false} LinesSorted(a: seq<Word>, ys: seq<real>, n: nat)
    requires Increasing(ys) && n <= |ys|
    ensures TopsSorted(Lines(a, ys, n))
    ensures forall w :: w in Lines(a, ys, n) ==> n > 0 && w.y0 <= ys[n - 1]
  {
    if n > 0 {
      var y := ys[n - 1];
      var l, m := Lines(a, ys, n - 1), Line(a, y);
      LinesSorted(a, ys, n - 1);
      LineTop(a, y);
      var all := l + m;
      assert Lines(a, ys, n) == all;
      forall p, q | 0 <= p < q < |all|
        ensures all[p].y0 <= all[q].y0
      {
        if q < |l| {
          assert all[p] == l[p] && all[q] == l[q];
        } else if p < |l| {
          assert all[p] == l[p] && l[p] in l;
          assert all[q] == m[q - |l|] && m[q - |l|] in m;
          assert ys[n - 2] < ys[n - 1];
        } else {
          assert all[p] == m[p - |l|] && m[p - |l|] in m;
          assert all[q] == m[q - |l|] && m[q - |l|] in m;
        }
      }
      forall w | w in all
        ensures w.y0 <= y
      {
        if w in l {
          assert ys[n - 2] < ys[n - 1];
        }
      }
    }
  }

  /** The reading order never goes back up the page. */
  lemma ReadingOrderSorted(ws: seq<Word>)
    ensures TopsSorted(ReadingOrder(ws))
  {
    var ys := SortedSeq(Ys(ws));
    LinesSorted(AnchorWords(ws), ys, |ys|);
  }

  lemma LineOfLinesStep(a: seq<Word>, ys: seq<real>, n: nat, y: real)
    requires Increasing(ys) && 0 < n <= |ys|
    requires Line(Lines(a, ys, n - 1), y) == if y in ys[..n - 1] then Line(a, y) else []
    ensures Line(Lines(a, ys, n), y) == if y in ys[..n] then Line(a, y) else []
  {
    var z := ys[n - 1];
    LineAppend(Lines(a, ys, n - 1), Line(a, z), y);
    LineOfLine(a, z, y);
    PrefixSnoc(ys, n);
    NotEarlier(ys, n);
  }

  /** Selecting one line of the selected lines. */
  lemma {:induction false} LineOfLines(a: seq<Word>, ys: seq<real>, n: nat, y: real)
    requires Increasing(ys) && n <= |ys|
    ensures Line(Lines(a, ys, n), y) == if y in ys[..n] then Line(a, y) else []
  {
    if n == 0 {
      assert Lines(a, ys, 0) == [];
    } else {
      LineOfLines(a, ys, n - 1, y);
      LineOfLinesStep(a, ys, n, y);
    }
  }

  /** Within one line the anchors keep the order the engine listed them in. */
  lemma ReadingOrderStable(ws: seq<Word>, y: real)
    ensures Line(ReadingOrder(ws), y) == AnchorWords(Line(ws, y))
  {
    var ys := SortedSeq(Ys(ws));
    LineOfLines(AnchorWords(ws), ys, |ys|, y);
    assert ys[..|ys|] == ys;
    AnchorsOfLine(ws, y);
    if y !in ys {
      LineAbsent(ws, y);
    }
  }

  /** Whether a description was found: `text_below.strip()` is non-empty
      exactly when the text has a character that is not whitespace. */
  lemma HasDescriptionIff(w: Word, below: string)
    ensures MakeRegion(w, below).hasDescription <==> exists k :: 0 <= k < |below| && !IsSpace(below[k])
  {
    StripEmpty(below);
  }

  /** Every region is an anchor of the page's usable words, described by the
      nearest line below it. */
  lemma DetectRegionsAreAnchors(entries: seq<Entry>)
    ensures forall r :: r in Detect(entries) ==>
      exists w :: w in Usable(entries) && IsAnchor(w.text) && r == Describe(Usable(entries), w)
  {
    var ws := Usable(entries);
    var o := ReadingOrder(ws);
    DetectDescribed(entries);
    ReadingOrderPermutation(ws);
    AnchorWordsAreAnchors(ws);
    forall r | r in Detect(entries)
      ensures exists w :: w in ws && IsAnchor(w.text) && r == Describe(ws, w)
    {
      var k :| 0 <= k < |o| && Detect(entries)[k] == r;
      assert o[k] in multiset(AnchorWords(ws));
      assert o[k] in AnchorWords(ws);
    }
  }

  /** Entries with fewer than five fields do not affect the result. */
  lemma ShortEntryIgnored(a: seq<Entry>, e: Entry, b: seq<Entry>)
    requires e.arity < 5
    ensures Detect(a + [e] + b) == Detect(a + b)
  {
    UsableAppend(a + [e], b);
    UsableAppend(a, [e]);
    UsableAppend(a, b);
    assert [e][..0] == [];
    assert Usable([e]) == [];
    assert Usable(a + [e] + b) == Usable(a + b);
  }

  /** Short words without the keyword are not anchors. */
  lemma NotAnchorShort(text: string)
    requires 0 < |text| < |Keyword| && text[0] != '_' && text[0] != '-'
    ensures !IsAnchor(text)
  {
    AnchorIff(text);
  }

  lemma LetterNotSpace(c: char)
    requires 'A' <= c <= 'Z' || 'a' <= c <= 'z'
    ensures !IsSpace(c)
  {
  }

  lemma UsableOfFour(a: Entry, b: Entry, c: Entry, d: Entry)
    requires a.arity >= 5 && b.arity >= 5 && c.arity < 5 && d.arity >= 5
    ensures Usable([a, b, c, d]) == [a.word, b.word, d.word]
  {
    var e1, e2, e3, e4 := [a], [a, b], [a, b, c], [a, b, c, d];
    assert e4[..3] == e3 && e3[..2] == e2 && e2[..1] == e1 && e1[..0] == [];
    assert Usable(e1) == [a.word];
    assert Usable(e2) == [a.word, b.word];
    assert Usable(e3) == [a.word, b.word];
  }

  lemma AnchorsOfThree(x: Word, y: Word, z: Word)
    requires IsAnchor(x.text) && !IsAnchor(y.text) && !IsAnchor(z.text)
    ensures AnchorWords([x, y, z]) == [x]
  {
    var w1, w2, w3 := [x], [x, y], [x, y, z];
    assert w3[..2] == w2 && w2[..1] == w1 && w1[..0] == [];
    assert AnchorWords(w1) == [x];
    assert AnchorWords(w2) == [x];
  }

  lemma LineOfThree(x: Word, y: Word, z: Word, t: real)
    requires x.y0 != t && y.y0 == t && z.y0 == t
    ensures Line([x, y, z], t) == [y, z]
  {
    var w1, w2, w3 := [x], [x, y], [x, y, z];
    assert w3[..2] == w2 && w2[..1] == w1 && w1[..0] == [];
    assert Line(w1, t) == [];
    assert Line(w2, t) == [y];
  }

  lemma YsOfThree(x: Word, y: Word, z: Word)
    ensures Ys([x, y, z]) == {x.y0, y.y0, z.y0}
  {
    var ws := [x, y, z];
    assert x == ws[0] && y == ws[1] && z == ws[2];
  }

  lemma NameText()
    ensures "Dr." + " " + "Jane" == "Dr. Jane"
  {
  }

  lemma JoinTwo(sep: string, a: string, b: string)
    ensures Join(sep, [a, b]) == a + sep + b
  {
    assert [a, b][1..] == [b];
  }

  lemma NextOfOne(ws: seq<Word>, w: Word, t: real)
    requires TopsBelow(ws, w.y0) == {t}
    ensures NextLineText(ws, w) == if t - w.y1 < DescriptionGap then Join(" ", Texts(Line(ws, t))) else ""
  {
    assert Least({t}) == t;
  }

  /** A sequence holding exactly one given element is that element. */
  lemma SingletonOrder(o: seq<Word>, x: Word)
    requires multiset(o) == multiset{x}
    ensures o == [x]
  {
    assert |o| == 1;
    assert o[0] in multiset(o);
  }

  /** A page whose only anchor is `w` yields exactly `w`'s region. */
  lemma OneAnchorDetected(entries: seq<Entry>, w: Word)
    requires AnchorWords(Usable(entries)) == [w]
    ensures Detect(entries) == [Describe(Usable(entries), w)]
  {
    var ws := Usable(entries);
    ReadingOrderPermutation(ws);
    SingletonOrder(ReadingOrder(ws), w);
    DetectDescribed(entries);
  }

  /** The rule of `RuleAboveName` is described by the name line exactly when
      the name line starts less than 20 units below the rule's bottom edge. */
  lemma RuleDescribed(rule: Word, dr: Word, jane: Word)
    requires rule == Word(72.0, 100.0, 272.0, 110.0, "_____")
    requires dr.y0 == jane.y0 > 100.0 && dr.text == "Dr." && jane.text == "Jane"
    ensures var below := if jane.y0 < 130.0 then "Dr. Jane" else "";
            Describe([rule, dr, jane], rule) ==
              Region(Rect(72.0, 100.0, 272.0, 110.0), "_____", below, jane.y0 < 130.0)
  {
    var ws := [rule, dr, jane];
    var t := jane.y0;
    YsOfThree(rule, dr, jane);
    assert TopsBelow(ws, 100.0) == {t};
    NextOfOne(ws, rule, t);
    LineOfThree(rule, dr, jane, t);
    var text := "Dr. Jane";
    assert Join(" ", Texts(Line(ws, t))) == text by {
      assert Texts([dr, jane]) == ["Dr.", "Jane"];
      JoinTwo(" ", "Dr.", "Jane");
      NameText();
    }
    var below := if t < 130.0 then text else "";
    assert NextLineText(ws, rule) == below;
    HasDescriptionIff(rule, below);
    LetterNotSpace(text[0]);
  }

  /** A page with a rule at top edge 100 and bottom edge 110, with the words
      `Dr.` and `Jane` on the line at `nameTop`, and one entry too short to be
      a word: the rule is the one region, described by the name line exactly
      when that line starts less than 20 units below the rule's bottom edge
      (110). */
  lemma RuleAboveName(nameTop: real)
    requires nameTop > 100.0
    ensures var rule := Word(72.0, 100.0, 272.0, 110.0, "_____");
            var dr := Word(72.0, nameTop, 95.0, nameTop + 10.0, "Dr.");
            var jane := Word(98.0, nameTop, 130.0, nameTop + 10.0, "Jane");
            var below := if nameTop < 130.0 then "Dr. Jane" else "";
            Detect([Entry(5, rule), Entry(5, dr), Entry(4, rule), Entry(5, jane)]) ==
              [Region(Rect(72.0, 100.0, 272.0, 110.0), "_____", below, nameTop < 130.0)]
  {
    var rule := Word(72.0, 100.0, 272.0, 110.0, "_____");
    var dr := Word(72.0, nameTop, 95.0, nameTop + 10.0, "Dr.");
    var jane := Word(98.0, nameTop, 130.0, nameTop + 10.0, "Jane");
    var entries := [Entry(5, rule), Entry(5, dr), Entry(4, rule), Entry(5, jane)];
    UsableOfFour(entries[0], entries[1], entries[2], entries[3]);
    RuleExamples(5);
    NotAnchorShort("Dr.");
    NotAnchorShort("Jane");
    AnchorsOfThree(rule, dr, jane);
    OneAnchorDetected(entries, rule);
    RuleDescribed(rule, dr, jane);
  }
}
