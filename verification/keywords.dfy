/**
 The keyword tokenizer of `search_repo_for_epub`: a free-text book title becomes the list of
 match terms. Both comma styles are turned into spaces, the result is split on whitespace,
 each piece is stripped, and empty pieces are dropped.
 */
module Keywords {
  import opened Text

  /** The full-width comma U+FF0C, common in Chinese titles. */
  const FullWidthComma: char := '，'

  /** Characters that end a keyword: whitespace and both comma styles. */
  predicate IsSeparator(c: char) {
    IsSpace(c) || c == ',' || c == FullWidthComma
  }

  /** A well-formed keyword: non-empty, with no separator inside. */
  predicate IsKeyword(k: string) {
    k != [] && forall i :: 0 <= i < |k| ==> !IsSeparator(k[i])
  }

  /** Python's `s.replace(target, replacement)` for one-character arguments. */
  function ReplaceChar(s: string, target: char, replacement: char): (r: string)
    ensures |r| == |s|
    ensures forall i :: 0 <= i < |s| ==> r[i] == (if s[i] == target then replacement else s[i])
    ensures target != replacement ==> target !in r
  {
    seq(|s|, i requires 0 <= i < |s| => if s[i] == target then replacement else s[i])
  }

  /** Replacing works character by character: it distributes over concatenation. */
  lemma ReplaceCharAppend(a: string, b: string, target: char, replacement: char)
    ensures ReplaceChar(a + b, target, replacement)
         == ReplaceChar(a, target, replacement) + ReplaceChar(b, target, replacement)
  {
    var r := ReplaceChar(a + b, target, replacement);
    var ra := ReplaceChar(a, target, replacement);
    var rb := ReplaceChar(b, target, replacement);
    forall i | 0 <= i < |r| ensures r[i] == (ra + rb)[i] {
      if i < |a| {
        assert (a + b)[i] == a[i];
      } else {
        assert (a + b)[i] == b[i - |a|];
      }
    }
  }

  /** When the replacement character does not occur, replacing back undoes the replacement. */
  lemma ReplaceCharInverse(s: string, target: char, replacement: char)
    requires replacement !in s
    ensures ReplaceChar(ReplaceChar(s, target, replacement), replacement, target) == s
  {
    var back := ReplaceChar(ReplaceChar(s, target, replacement), replacement, target);
    forall i | 0 <= i < |s| ensures back[i] == s[i] {
      assert s[i] != replacement;
    }
  }

  /** The title with both comma styles replaced by spaces: the full-width comma first, then
      the ASCII one. */
  function Normalize(title: string): (r: string)
    ensures |r| == |title|
    ensures forall i :: 0 <= i < |r| ==> r[i] != ',' && r[i] != FullWidthComma
    ensures forall i :: 0 <= i < |r| ==> (IsSpace(r[i]) <==> IsSeparator(title[i]))
    ensures forall i :: 0 <= i < |r| ==> !IsSeparator(title[i]) ==> r[i] == title[i]
  {
    ReplaceChar(ReplaceChar(title, FullWidthComma, ' '), ',', ' ')
  }

  /** `[k.strip() for k in pieces if k.strip()]`. */
  function StripAll(pieces: seq<string>): (r: seq<string>)
    ensures |r| <= |pieces|
    ensures forall i :: 0 <= i < |r| ==> r[i] != []
    decreases |pieces|
  {
    if pieces == [] then [] else Kept(pieces[0]) + StripAll(pieces[1..])
  }

  /** What the comprehension keeps of one piece: its stripped form, unless that is empty. */
  function Kept(piece: string): seq<string> {
    var k := Strip(piece);
    if k != [] then [k] else []
  }

  /** One piece is kept, stripped, exactly when it is not blank. */
  lemma StripAllSingle(p: string)
    ensures StripAll([p]) == if Strip(p) == [] then [] else [Strip(p)]
  {
    assert [p][1..] == [];
  }

  /** The comprehension works piece by piece: it distributes over concatenation, so its
      result is the stripped non-blank pieces in their original order. */
  lemma {:induction false} StripAllAppend(a: seq<string>, b: seq<string>)
    ensures StripAll(a + b) == StripAll(a) + StripAll(b)
    decreases |a|
  {
    if a != [] {
      StripAllFirst(a, b);
      StripAllAppend(a[1..], b);
      assert StripAll(a) == Kept(a[0]) + StripAll(a[1..]);
      Associate(Kept(a[0]), StripAll(a[1..]), StripAll(b));
    } else {
      assert a + b == b;
    }
  }

  /** The comprehension over `a + b` starts with what it keeps of `a`'s first piece. */
  lemma StripAllFirst(a: seq<string>, b: seq<string>)
    requires a != []
    ensures StripAll(a + b) == Kept(a[0]) + StripAll(a[1..] + b)
  {
    assert (a + b)[0] == a[0];
    assert (a + b)[1..] == a[1..] + b;
  }

  /** The keyword list of a title (book_downloader.py line 190). Every keyword is non-empty
      and holds no whitespace and no comma of either style. */
  function Tokenize(title: string): (keywords: seq<string>)
    ensures forall i :: 0 <= i < |keywords| ==> IsKeyword(keywords[i])
  {
    var n := Normalize(title);
    var pieces := Split(n);
    StripAllUnchanged(pieces);
    SplitKeepsProperty(n);
    StripAll(pieces)
  }

  /** Stripping pieces that are already non-empty and space-free changes nothing. */
  lemma {:induction false} StripAllUnchanged(pieces: seq<string>)
    requires forall i :: 0 <= i < |pieces| ==> pieces[i] != [] && NoSpace(pieces[i])
    ensures StripAll(pieces) == pieces
    decreases |pieces|
  {
    if pieces != [] {
      StripAllUnchanged(pieces[1..]);
    }
  }

  /** A piece of `Split(s)` holds no comma when `s` holds none. */
  lemma {:induction false} SplitKeepsProperty(s: string)
    requires forall i :: 0 <= i < |s| ==> s[i] != ',' && s[i] != FullWidthComma
    ensures forall i, j :: 0 <= i < |Split(s)| && 0 <= j < |Split(s)[i]| ==>
              !IsSeparator(Split(s)[i][j])
    decreases |s|
  {
    if s == [] {
    } else if IsSpace(s[0]) {
      SplitKeepsProperty(s[1..]);
    } else {
      var n := WordLength(s);
      SplitKeepsProperty(s[n..]);
      assert Split(s) == [s[..n]] + Split(s[n..]);
    }
  }

  /** The strip-and-drop-empty step is redundant: the keywords are exactly the whitespace
      split of the normalized title. */
  lemma TokenizeIsSplit(title: string)
    ensures Tokenize(title) == Split(Normalize(title))
  {
    StripAllUnchanged(Split(Normalize(title)));
  }

  /** Normalizing and then dropping whitespace is dropping every separator. */
  lemma {:induction false} NormalizeFilter(title: string)
    ensures Filter(Normalize(title), c => !IsSpace(c)) == Filter(title, c => !IsSeparator(c))
    decreases |title|
  {
    if title != [] {
      assert Normalize(title)[1..] == Normalize(title[1..]);
      NormalizeFilter(title[1..]);
    }
  }

  /** Tokenizing loses exactly the separators: the keywords written one after the other are
      the title's non-separator characters, in their original order. */
  lemma TokenizeFlatten(title: string)
    ensures Flatten(Tokenize(title)) == Filter(title, c => !IsSeparator(c))
  {
    TokenizeIsSplit(title);
    SplitFlatten(Normalize(title));
    NormalizeFilter(title);
  }

  /** A list of non-empty strings flattens to the empty string only when it is empty. */
  lemma FlattenNonEmpty(parts: seq<string>)
    requires forall i :: 0 <= i < |parts| ==> parts[i] != []
    ensures Flatten(parts) == [] <==> parts == []
  {
    if parts != [] {
      assert |Flatten(parts)| >= |parts[0]|;
    }
  }

  /** No keyword comes out exactly when the title is made only of separators (in particular
      when it is empty or blank). */
  lemma TokenizeEmptyIff(title: string)
    ensures Tokenize(title) == [] <==> forall i :: 0 <= i < |title| ==> IsSeparator(title[i])
  {
    TokenizeFlatten(title);
    FilterEmptyIff(title, c => !IsSeparator(c));
    FlattenNonEmpty(Tokenize(title));
  }

  /** Round trip: keywords joined by single spaces tokenize back to the same keywords. */
  lemma TokenizeJoin(keywords: seq<string>)
    requires forall i :: 0 <= i < |keywords| ==> IsKeyword(keywords[i])
    ensures Tokenize(Join(keywords, " ")) == keywords
  {
    var title := Join(keywords, " ");
    JoinNoComma(keywords);
    assert Normalize(title) == title;
    TokenizeIsSplit(title);
    SplitJoin(keywords);
  }

  /** Joining keywords with spaces introduces no comma. */
  lemma {:induction false} JoinNoComma(keywords: seq<string>)
    requires forall i :: 0 <= i < |keywords| ==> IsKeyword(keywords[i])
    ensures forall i :: 0 <= i < |Join(keywords, " ")| ==>
              !(Join(keywords, " ")[i] == ',' || Join(keywords, " ")[i] == FullWidthComma)
    decreases |keywords|
  {
    if |keywords| > 1 {
      JoinNoComma(keywords[1..]);
      var j := Join(keywords, " ");
      assert j == keywords[0] + " " + Join(keywords[1..], " ");
      forall i | 0 <= i < |j|
        ensures !(j[i] == ',' || j[i] == FullWidthComma)
      {
        if i < |keywords[0]| {
          assert j[i] == keywords[0][i];
        } else if i > |keywords[0]| {
          assert j[i] == Join(keywords[1..], " ")[i - |keywords[0]| - 1];
        }
      }
    }
  }

  /** Normalizing works character by character, so it distributes over concatenation. */
  lemma NormalizeAppend(a: string, b: string)
    ensures Normalize(a + b) == Normalize(a) + Normalize(b)
  {
  }

  /** A title without commas is left as it is by normalizing. */
  lemma NormalizeNoComma(s: string)
    requires forall i :: 0 <= i < |s| ==> s[i] != ',' && s[i] != FullWidthComma
    ensures Normalize(s) == s
  {
  }

  /** A mixed-comma title splits into its three words. */
  lemma TokenizeMixedCommas()
    ensures Tokenize("Clean Code, 代码整洁之道") == ["Clean", "Code", "代码整洁之道"]
  {
    var title := "Clean Code, 代码整洁之道";
    assert Normalize(title) == "Clean Code  代码整洁之道" by {
      var words := "Clean Code";
      var rest := " 代码整洁之道";
      assert title == words + ("," + rest);
      NormalizeAppend(words, "," + rest);
      NormalizeAppend(",", rest);
      NormalizeNoComma(words);
      NormalizeNoComma(rest);
    }
    SplitMixedExample();
    TokenizeIsSplit(title);
  }

  lemma SplitMixedExample()
    ensures Split("Clean Code  代码整洁之道") == ["Clean", "Code", "代码整洁之道"]
  {
    var cjk := "代码整洁之道";
    assert NoSpace(cjk) by {
      forall i | 0 <= i < |cjk| ensures !IsSpace(cjk[i]) {
        assert cjk[i] >= '\U{4e00}';
      }
    }
    assert "Clean Code  代码整洁之道" == "Clean" + " " + "Code" + "  " + cjk;
    SplitThree("Clean", " ", "Code", "  ", cjk);
  }
}
