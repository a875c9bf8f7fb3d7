/** String operations of Python's `str` that the signature finder relies on:
    `isspace`, `lower`, `strip`, `in` (substring test), `join` and `replace`. */
module Text {

  /** Python's `c.isspace()` for one code point: the characters of Unicode
      category Zs or bidirectional class WS, B or S, which are also what `\s`
      matches in a `re` pattern over `str`. */
  predicate IsSpace(c: char)
  {
    || '\t' <= c <= '\r'
    || '\U{1C}' <= c <= ' '
    || c == '\U{85}' || c == '\U{A0}' || c == '\U{1680}'
    || '\U{2000}' <= c <= '\U{200A}'
    || c == '\U{2028}' || c == '\U{2029}' || c == '\U{202F}' || c == '\U{205F}' || c == '\U{3000}'
  }

  /** The capitals that `lower` changes in the ASCII and Latin-1 ranges:
      `A`-`Z` and `À`-`Þ` without `×`. */
  predicate IsCapital(c: char)
  {
    ('A' <= c <= 'Z') || ('\U{C0}' <= c <= '\U{DE}' && c != '\U{D7}')
  }

  /** The ASCII capitals and, at the same positions, their lower-case forms. */
  const AsciiCapitals: string := "ABCDEFGHIJKLMNOPQRSTUVWXYZ"
  const AsciiSmalls: string := "abcdefghijklmnopqrstuvwxyz"

  /** The Latin-1 capitals and, at the same positions, their lower-case
      forms. */
  const Latin1Capitals: string := "ÀÁÂÃÄÅÆÇÈÉÊËÌÍÎÏÐÑÒÓÔÕÖØÙÚÛÜÝÞ"
  const Latin1Smalls: string := "àáâãäåæçèéêëìíîïðñòóôõöøùúûüýþ"

  /** Each ASCII capital lies 32 code points before its lower-case form. */
  lemma AsciiTable()
    ensures |AsciiSmalls| == |AsciiCapitals|
    ensures forall k :: 0 <= k < |AsciiCapitals| ==>
      IsCapital(AsciiCapitals[k]) && AsciiSmalls[k] as int == AsciiCapitals[k] as int + 32
  {
  }

  /** Each Latin-1 capital lies 32 code points before its lower-case form. */
  lemma Latin1Table()
    ensures |Latin1Smalls| == |Latin1Capitals|
    ensures forall k :: 0 <= k < |Latin1Capitals| ==>
      IsCapital(Latin1Capitals[k]) && Latin1Smalls[k] as int == Latin1Capitals[k] as int + 32
  {
  }

  /** The lower-case form of one character: a capital becomes the letter at
      the same position of the lower-case alphabet, which is not a capital;
      every other character is kept. */
  function LowerChar(c: char): (r: char)
    ensures r != c <==> IsCapital(c)
    ensures forall k :: 0 <= k < |AsciiCapitals| && c == AsciiCapitals[k] ==> r == AsciiSmalls[k]
    ensures forall k :: 0 <= k < |Latin1Capitals| && c == Latin1Capitals[k] ==> r == Latin1Smalls[k]
    ensures !IsCapital(r)
    ensures c == '.' || c == '_' || c == '-' ==> r == c
  {
    AsciiTable();
    Latin1Table();
    if IsCapital(c) then (c as int + 32) as char else c
  }

  /** Python's `str.lower()`, character by character: the result has the
      same length, holds no capital, keeps every other character in place
      and puts the lower-case form of each capital where the capital was. */
  function Lower(s: string): (r: string)
    ensures |r| == |s|
    ensures forall i :: 0 <= i < |r| ==> !IsCapital(r[i])
    ensures forall i :: 0 <= i < |s| && !IsCapital(s[i]) ==> r[i] == s[i]
    ensures forall i :: 0 <= i < |s| ==> r[i] == LowerChar(s[i])
  {
    seq(|s|, i requires 0 <= i < |s| => LowerChar(s[i]))
  }

  /** Lower-casing a lower-case text changes nothing. */
  lemma LowerIdempotent(s: string)
    ensures Lower(Lower(s)) == Lower(s)
  {
    var l := Lower(s);
    forall i | 0 <= i < |l|
      ensures Lower(l)[i] == l[i]
    {
      assert !IsCapital(l[i]);
    }
  }

  /** Lower-casing works character by character, so it distributes over
      concatenation. */
  lemma LowerAppend(a: string, b: string)
    ensures Lower(a + b) == Lower(a) + Lower(b)
  {
  }

  /** A string of lower-case ASCII letters is its own lower-case form. */
  lemma LowerOfLower(s: string)
    requires forall i :: 0 <= i < |s| ==> 'a' <= s[i] <= 'z'
    ensures Lower(s) == s
  {
  }

  /** The characters of `s` from the first one that `drop` does not hold of. */
  function TrimLeft(s: string, drop: char -> bool): (r: string)
    ensures |r| <= |s|
  {
    if s == [] || !drop(s[0]) then s else TrimLeft(s[1..], drop)
  }

  /** `TrimLeft` removes a prefix of dropped characters and stops at a kept one. */
  lemma {:induction false} TrimLeftFacts(s: string, drop: char -> bool)
    ensures var r := TrimLeft(s, drop);
      && |r| <= |s| && r == s[|s| - |r|..]
      && (r == [] || !drop(r[0]))
      && (forall i :: 0 <= i < |s| - |r| ==> drop(s[i]))
  {
    if s != [] && drop(s[0]) {
      TrimLeftFacts(s[1..], drop);
    }
  }

  /** The characters of `s` up to the last one that `drop` does not hold of. */
  function TrimRight(s: string, drop: char -> bool): (r: string)
    ensures |r| <= |s|
  {
    if s == [] || !drop(s[|s| - 1]) then s else TrimRight(s[..|s| - 1], drop)
  }

  /** `TrimRight` removes a suffix of dropped characters and stops at a kept one. */
  lemma {:induction false} TrimRightFacts(s: string, drop: char -> bool)
    ensures var r := TrimRight(s, drop);
      && |r| <= |s| && r == s[..|r|]
      && (r == [] || !drop(r[|r| - 1]))
      && (forall i :: |r| <= i < |s| ==> drop(s[i]))
  {
    if s != [] && drop(s[|s| - 1]) {
      TrimRightFacts(s[..|s| - 1], drop);
    }
  }

  /** Removes the leading and the trailing characters that `drop` holds of. */
  function Trim(s: string, drop: char -> bool): string
  {
    TrimRight(TrimLeft(s, drop), drop)
  }

  /** Python's `s.strip()`: trims whitespace at both ends. */
  function Strip(s: string): string
  {
    Trim(s, IsSpace)
  }

  /** Python's `s.strip(c)` for a one-character argument. */
  function StripChar(s: string, c: char): string
  {
    Trim(s, x => x == c)
  }

  /** Trimming removes everything exactly when every character is dropped. */
  lemma TrimEmpty(s: string, drop: char -> bool)
    ensures Trim(s, drop) == [] <==> forall i :: 0 <= i < |s| ==> drop(s[i])
  {
    var l := TrimLeft(s, drop);
    TrimLeftFacts(s, drop);
    TrimRightFacts(l, drop);
    if l != [] {
      assert !drop(s[|s| - |l|]);
    }
  }

  /** Trimming keeps every character strictly inside the outermost kept ones. */
  lemma TrimNoEdges(s: string, drop: char -> bool)
    ensures Trim(s, drop) == [] || (!drop(Trim(s, drop)[0]) && !drop(Trim(s, drop)[|Trim(s, drop)| - 1]))
  {
    var l := TrimLeft(s, drop);
    var r := TrimRight(l, drop);
    TrimLeftFacts(s, drop);
    TrimRightFacts(l, drop);
    if r != [] {
      assert r[0] == l[0];
    }
  }

  /** `s.strip(c) == ''` exactly when `s` consists of `c` only. */
  lemma StripCharEmpty(s: string, c: char)
    ensures StripChar(s, c) == "" <==> forall i :: 0 <= i < |s| ==> s[i] == c
  {
    TrimEmpty(s, x => x == c);
  }

  /** `s.strip() == ''` exactly when `s` is all whitespace. */
  lemma StripEmpty(s: string)
    ensures Strip(s) == "" <==> forall i :: 0 <= i < |s| ==> IsSpace(s[i])
  {
    TrimEmpty(s, IsSpace);
  }

  /** `pat` occurs in `s` starting at index `i`. */
  predicate OccursAt(s: string, pat: string, i: int)
  {
    0 <= i <= |s| - |pat| && s[i..i + |pat|] == pat
  }

  /** Python's `pat in s` for strings: `pat` occurs as a contiguous substring. */
  predicate Contains(s: string, pat: string)
  {
    exists i :: 0 <= i <= |s| - |pat| && OccursAt(s, pat, i)
  }

  /** Python's `sep.join(parts)`. */
  function Join(sep: string, parts: seq<string>): (r: string)
    ensures parts == [] ==> r == ""
    ensures |parts| == 1 ==> r == parts[0]
  {
    if parts == [] then ""
    else if |parts| == 1 then parts[0]
    else parts[0] + sep + Join(sep, parts[1..])
  }

  /** Python's `s.replace(pat, rep)` for a non-empty `pat`: scans from the
      left and replaces every non-overlapping occurrence. */
  function ReplaceAll(s: string, pat: string, rep: string): string
    requires pat != []
    decreases |s|
  {
    if |s| < |pat| then s
    else if s[..|pat|] == pat then rep + ReplaceAll(s[|pat|..], pat, rep)
    else [s[0]] + ReplaceAll(s[1..], pat, rep)
  }

  /** Replacing by a longer string never shortens, and lengthens exactly when
      the pattern occurs. */
  lemma {:induction false} ReplaceAllGrows(s: string, pat: string, rep: string)
    requires pat != [] && |rep| > |pat|
    ensures |ReplaceAll(s, pat, rep)| >= |s|
    ensures |ReplaceAll(s, pat, rep)| > |s| <==> Contains(s, pat)
    decreases |s|
  {
    if |s| < |pat| {
    } else if s[..|pat|] == pat {
      ReplaceAllGrows(s[|pat|..], pat, rep);
      assert OccursAt(s, pat, 0);
    } else {
      ReplaceAllGrows(s[1..], pat, rep);
      if Contains(s, pat) {
        var i :| 0 <= i <= |s| - |pat| && OccursAt(s, pat, i);
        assert i != 0;
        assert s[1..][i - 1..i - 1 + |pat|] == s[i..i + |pat|];
        assert OccursAt(s[1..], pat, i - 1);
      }
      if Contains(s[1..], pat) {
        var i :| 0 <= i <= |s[1..]| - |pat| && OccursAt(s[1..], pat, i);
        assert s[1..][i..i + |pat|] == s[i + 1..i + 1 + |pat|];
        assert OccursAt(s, pat, i + 1);
      }
    }
  }

  /** An occurrence in the tail of `s` is an occurrence in `s`. */
  lemma ContainsTail(s: string, pat: string)
    requires s != [] && Contains(s[1..], pat)
    ensures Contains(s, pat)
  {
    var i :| 0 <= i <= |s[1..]| - |pat| && OccursAt(s[1..], pat, i);
    assert s[1..][i..i + |pat|] == s[i + 1..i + 1 + |pat|];
    assert OccursAt(s, pat, i + 1);
  }

  /** Replacing a pattern that does not occur changes nothing. */
  lemma {:induction false} ReplaceAllAbsent(s: string, pat: string, rep: string)
    requires pat != [] && !Contains(s, pat)
    ensures ReplaceAll(s, pat, rep) == s
    decreases |s|
  {
    if |s| >= |pat| {
      if s[..|pat|] == pat {
        assert OccursAt(s, pat, 0);
      }
      if Contains(s[1..], pat) {
        ContainsTail(s, pat);
      }
      ReplaceAllAbsent(s[1..], pat, rep);
      assert [s[0]] + s[1..] == s;
    }
  }
}
