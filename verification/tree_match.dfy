/**
 The repository tree matcher `search_repo_for_epub`: given one repository's recursive file
 listing, it keeps the `.epub` entries whose path or file name contains one of the title's
 keywords, exactly or after lower-casing both sides, and turns each into a search hit.
 The HTTP fetch of the listing is an input: `None` stands for any failure of the request or
 of decoding its answer, which `search_repo_for_epub` swallows and answers with no hits.
 */
module TreeMatch {
  import opened Wrappers
  import opened Text
  import opened Keywords

  /** The book format the matcher looks for. */
  const EpubSuffix: string := ".epub"

  /** One search hit: `{'name': ..., 'path': ..., 'repository': {'full_name': ...}}`. */
  datatype Candidate = Candidate(name: string, path: string, repository: string)

  /** One keyword hits an entry when it is a substring of the path or of the file name,
      either as written or with both sides lower-cased. */
  predicate KeywordHits(keyword: string, path: string, lower: char -> char) {
    var filename := LastSegment(path);
    var keywordLower := Lower(keyword, lower);
    || Contains(path, keyword)
    || Contains(filename, keyword)
    || Contains(Lower(path, lower), keywordLower)
    || Contains(Lower(filename, lower), keywordLower)
  }

  /** The inner keyword loop, which stops at the first keyword that hits. */
  function AnyKeywordHits(keywords: seq<string>, path: string, lower: char -> char): (hit: bool)
    ensures hit <==> exists i :: 0 <= i < |keywords| && KeywordHits(keywords[i], path, lower)
    decreases |keywords|
  {
    if keywords == [] then false
    else KeywordHits(keywords[0], path, lower) || AnyKeywordHits(keywords[1..], path, lower)
  }

  /** A tree entry the matcher reports: a `.epub` path that some keyword hits. */
  predicate IsHit(path: string, keywords: seq<string>, lower: char -> char) {
    EndsWith(path, EpubSuffix) && AnyKeywordHits(keywords, path, lower)
  }

  /** The hit recorded for a matching path of `repo`. */
  function CandidateFor(repo: string, path: string): (c: Candidate)
    ensures c.path == path && c.repository == repo
    ensures '/' !in c.name && EndsWith(path, c.name)
    ensures |c.name| == |path| || path[|path| - |c.name| - 1] == '/'
  {
    Candidate(LastSegment(path), path, repo)
  }

  /** `c` is a well-formed hit of `repo`: a matching `.epub` path, named by its base name. */
  predicate FoundIn(c: Candidate, repo: string, keywords: seq<string>, lower: char -> char) {
    && IsHit(c.path, keywords, lower)
    && c.name == LastSegment(c.path)
    && c.repository == repo
  }

  /** The loop over the tree listing: every matching entry, in listing order, each once. */
  function MatchTree(repo: string, tree: seq<string>, keywords: seq<string>, lower: char -> char)
    : (found: seq<Candidate>)
    ensures |found| <= |tree|
    ensures forall i :: 0 <= i < |found| ==> found[i].repository == repo
    decreases |tree|
  {
    if tree == [] then []
    else
      var path := tree[0];
      (if IsHit(path, keywords, lower) then [CandidateFor(repo, path)] else [])
        + MatchTree(repo, tree[1..], keywords, lower)
  }

  /** Every hit the matcher reports is a matching `.epub` entry of the listing, named by its
      base name and attributed to the repository searched. */
  lemma {:induction false} MatchTreeFound(repo: string, tree: seq<string>, keywords: seq<string>,
                                          lower: char -> char)
    ensures forall i :: 0 <= i < |MatchTree(repo, tree, keywords, lower)| ==>
              && FoundIn(MatchTree(repo, tree, keywords, lower)[i], repo, keywords, lower)
              && MatchTree(repo, tree, keywords, lower)[i].path in tree
    decreases |tree|
  {
    if tree != [] {
      MatchTreeFound(repo, tree[1..], keywords, lower);
      var head := if IsHit(tree[0], keywords, lower) then [CandidateFor(repo, tree[0])] else [];
      var rest := MatchTree(repo, tree[1..], keywords, lower);
      assert MatchTree(repo, tree, keywords, lower) == head + rest;
      forall i | 0 <= i < |head + rest|
        ensures FoundIn((head + rest)[i], repo, keywords, lower) && (head + rest)[i].path in tree
      {
        if i >= |head| {
          assert (head + rest)[i] == rest[i - |head|];
          assert rest[i - |head|].path in tree[1..];
        }
      }
    }
  }

  /** `search_repo_for_epub(repo, title)` with the listing fetch as input: a failed fetch gives
      no hits, otherwise the title's keywords are matched against the listing. */
  function SearchRepo(repo: string, listing: Option<seq<string>>, title: string, lower: char -> char)
    : (found: seq<Candidate>)
    ensures listing.None? ==> found == []
    ensures listing.Some? ==> |found| <= |listing.value|
    ensures forall i :: 0 <= i < |found| ==> found[i].repository == repo
  {
    match listing
    case None => []
    case Some(tree) => MatchTree(repo, tree, Tokenize(title), lower)
  }

  /** Every hit of one repository's search is a matching `.epub` entry of its listing. */
  lemma SearchRepoFound(repo: string, listing: Option<seq<string>>, title: string, lower: char -> char)
    ensures forall i :: 0 <= i < |SearchRepo(repo, listing, title, lower)| ==>
              && FoundIn(SearchRepo(repo, listing, title, lower)[i], repo, Tokenize(title), lower)
              && listing.Some? && SearchRepo(repo, listing, title, lower)[i].path in listing.value
  {
    var found := SearchRepo(repo, listing, title, lower);
    if listing.Some? {
      var matched := MatchTree(repo, listing.value, Tokenize(title), lower);
      assert found == matched;
      MatchTreeFound(repo, listing.value, Tokenize(title), lower);
      forall i | 0 <= i < |found|
        ensures FoundIn(found[i], repo, Tokenize(title), lower) && found[i].path in listing.value
      {
        assert found[i] == matched[i];
      }
    } else {
      assert found == [];
    }
  }

  /** Matching a listing in two parts is matching each part in turn: the output keeps the
      listing's order and depends on each entry alone. */
  lemma {:induction false} MatchTreeAppend(repo: string, a: seq<string>, b: seq<string>,
                                           keywords: seq<string>, lower: char -> char)
    ensures MatchTree(repo, a + b, keywords, lower)
         == MatchTree(repo, a, keywords, lower) + MatchTree(repo, b, keywords, lower)
    decreases |a|
  {
    if a == [] {
      assert a + b == b;
    } else {
      assert (a + b)[0] == a[0];
      assert (a + b)[1..] == a[1..] + b;
      MatchTreeAppend(repo, a[1..], b, keywords, lower);
      var head := if IsHit(a[0], keywords, lower) then [CandidateFor(repo, a[0])] else [];
      assert MatchTree(repo, a + b, keywords, lower)
          == head + (MatchTree(repo, a[1..], keywords, lower) + MatchTree(repo, b, keywords, lower));
    }
  }

  /** The hits recorded for a list of paths, one per path. */
  function CandidatesFor(repo: string, paths: seq<string>): (r: seq<Candidate>)
    ensures |r| == |paths|
    ensures forall i :: 0 <= i < |r| ==> r[i] == CandidateFor(repo, paths[i])
    decreases |paths|
  {
    if paths == [] then [] else [CandidateFor(repo, paths[0])] + CandidatesFor(repo, paths[1..])
  }

  /** The matcher's output is the in-order subsequence of listing entries that are hits. */
  lemma {:induction false} MatchTreeIsFilter(repo: string, tree: seq<string>,
                                             keywords: seq<string>, lower: char -> char)
    ensures MatchTree(repo, tree, keywords, lower)
         == CandidatesFor(repo, Filter(tree, p => IsHit(p, keywords, lower)))
    decreases |tree|
  {
    var hit := p => IsHit(p, keywords, lower);
    if tree != [] {
      var head := if hit(tree[0]) then [tree[0]] else [];
      var rest := Filter(tree[1..], hit);
      assert Filter(tree, hit) == head + rest;
      assert MatchTree(repo, tree, keywords, lower)
          == CandidatesFor(repo, head) + MatchTree(repo, tree[1..], keywords, lower) by {
        assert CandidatesFor(repo, head)
            == if IsHit(tree[0], keywords, lower) then [CandidateFor(repo, tree[0])] else [];
      }
      MatchTreeIsFilter(repo, tree[1..], keywords, lower);
      CandidatesForAppend(repo, head, rest);
    }
  }

  /** The hits for two lists of paths are the hits for each list in turn. */
  lemma {:induction false} CandidatesForAppend(repo: string, a: seq<string>, b: seq<string>)
    ensures CandidatesFor(repo, a + b) == CandidatesFor(repo, a) + CandidatesFor(repo, b)
    decreases |a|
  {
    if a == [] {
      assert a + b == b;
    } else {
      assert (a + b)[0] == a[0];
      assert (a + b)[1..] == a[1..] + b;
      CandidatesForAppend(repo, a[1..], b);
    }
  }

  /** Every matching `.epub` entry of the listing is reported. */
  lemma {:induction false} MatchTreeComplete(repo: string, tree: seq<string>,
                                             keywords: seq<string>, lower: char -> char, j: int)
    requires 0 <= j < |tree|
    requires IsHit(tree[j], keywords, lower)
    ensures CandidateFor(repo, tree[j]) in MatchTree(repo, tree, keywords, lower)
    decreases |tree|
  {
    if j > 0 {
      assert tree[1..][j - 1] == tree[j];
      MatchTreeComplete(repo, tree[1..], keywords, lower, j - 1);
    }
  }

  /** At most one hit per `.epub` entry: no entry is reported twice. */
  lemma MatchTreeCount(repo: string, tree: seq<string>, keywords: seq<string>, lower: char -> char)
    ensures |MatchTree(repo, tree, keywords, lower)| <= |Filter(tree, p => EndsWith(p, EpubSuffix))|
  {
    MatchTreeIsFilter(repo, tree, keywords, lower);
    FilterWeaker(tree, p => IsHit(p, keywords, lower), p => EndsWith(p, EpubSuffix));
  }

  /** With no keyword nothing matches. */
  lemma {:induction false} MatchTreeNoKeywords(repo: string, tree: seq<string>, lower: char -> char)
    ensures MatchTree(repo, tree, [], lower) == []
    decreases |tree|
  {
    if tree != [] {
      MatchTreeNoKeywords(repo, tree[1..], lower);
    }
  }

  /** A listing without `.epub` entries gives no hit. */
  lemma {:induction false} MatchTreeNoEpub(repo: string, tree: seq<string>,
                                           keywords: seq<string>, lower: char -> char)
    requires forall j :: 0 <= j < |tree| ==> !EndsWith(tree[j], EpubSuffix)
    ensures MatchTree(repo, tree, keywords, lower) == []
    decreases |tree|
  {
    if tree != [] {
      MatchTreeNoEpub(repo, tree[1..], keywords, lower);
    }
  }

  /** A blank title (only separators) finds nothing in any listing. */
  lemma SearchRepoBlankTitle(repo: string, listing: Option<seq<string>>, title: string,
                             lower: char -> char)
    requires forall i :: 0 <= i < |title| ==> IsSeparator(title[i])
    ensures SearchRepo(repo, listing, title, lower) == []
  {
    TokenizeEmptyIff(title);
    if listing.Some? {
      MatchTreeNoKeywords(repo, listing.value, lower);
    }
  }

  /** The file-name tests are subsumed by the path tests: the file name is a suffix of the
      path, so a keyword in the file name is also in the path, lower-cased or not. */
  lemma KeywordHitsOnPath(keyword: string, path: string, lower: char -> char)
    ensures KeywordHits(keyword, path, lower)
        <==> Contains(path, keyword) || Contains(Lower(path, lower), Lower(keyword, lower))
  {
    var filename := LastSegment(path);
    var keywordLower := Lower(keyword, lower);
    if Contains(filename, keyword) {
      ContainsSuffix(path, filename, keyword);
    }
    if Contains(Lower(filename, lower), keywordLower) {
      LowerSlice(path, lower, |path| - |filename|, |path|);
      assert filename == path[|path| - |filename|..|path|];
      ContainsSuffix(Lower(path, lower), Lower(filename, lower), keywordLower);
    }
  }

  /** A listing holding `books/Clean_Code.epub`, searched for `Clean`, gives exactly that book. */
  lemma MatchTreeExample(repo: string, path: string, lower: char -> char)
    requires path == "books/Clean_Code.epub"
    ensures MatchTree(repo, [path], ["Clean"], lower) == [Candidate("Clean_Code.epub", path, repo)]
  {
    CleanCodeName(path);
    CleanCodeHit(path, lower);
    MatchTreeSingle(repo, path, ["Clean"], lower);
  }

  lemma CleanCodeName(path: string)
    requires path == "books/Clean_Code.epub"
    ensures LastSegment(path) == "Clean_Code.epub"
  {
    assert path == "books/" + "Clean_Code.epub";
    LastSegmentAfterSlash("books/", "Clean_Code.epub");
  }

  lemma CleanCodeHit(path: string, lower: char -> char)
    requires path == "books/Clean_Code.epub"
    ensures IsHit(path, ["Clean"], lower)
  {
    assert Contains(path, "Clean") by {
      assert path[6..11] == "Clean";
      assert OccursAt(path, "Clean", 6);
    }
    assert AnyKeywordHits(["Clean"], path, lower) by {
      assert KeywordHits("Clean", path, lower);
    }
    assert EndsWith(path, EpubSuffix) by {
      assert path[|path| - 5..] == EpubSuffix;
    }
  }

  /** A one-entry listing gives one hit exactly when its entry is a hit. */
  lemma MatchTreeSingle(repo: string, path: string, keywords: seq<string>, lower: char -> char)
    ensures MatchTree(repo, [path], keywords, lower)
         == if IsHit(path, keywords, lower) then [CandidateFor(repo, path)] else []
  {
    assert [path][1..] == [];
  }

  /** The last segment of `dir + name`, when `dir` ends in a slash and `name` has none, is `name`. */
  lemma {:induction false} LastSegmentAfterSlash(dir: string, name: string)
    requires EndsWith(dir, "/")
    requires '/' !in name
    ensures LastSegment(dir + name) == name
    decreases |name|
  {
    if name == [] {
      assert dir + name == dir;
    } else {
      var s := dir + name;
      assert s[..|s| - 1] == dir + name[..|name| - 1];
      assert s[|s| - 1] == name[|name| - 1];
      LastSegmentAfterSlash(dir, name[..|name| - 1]);
      assert name[..|name| - 1] + [name[|name| - 1]] == name;
    }
  }
}
