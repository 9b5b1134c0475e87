/**
 The cascading search of `search_github` and `search_github_repos`. Three stages are tried in
 order, each only when the ones before it found nothing:
   1. the fixed list of known e-book repositories, scanned in order until 10 hits have
      accumulated; at most the first 15 hits are returned;
   2. one code-search call, whose items are returned as they come;
   3. a repository-name search, whose first 3 repositories are scanned like the known ones,
      and every hit they gathered is returned, with no cap.
 The remote services are inputs (`Remote`); a failed call is `None`, which the script
 swallows in every stage.
 */
module Search {
  import opened Wrappers
  import opened Text
  import opened Keywords
  import opened TreeMatch

  /** The known e-book repositories, in the order they are scanned. */
  const KnownEbookRepos: seq<string> := [
    "fancy88/iBook",
    "it-ebooks-0/geektime-books",
    "hehonghui/awesome-english-ebooks",
    "forthespada/CS-Books",
    "imarvinle/awesome-cs-books"
  ]

  /** A scanning loop stops after the first repository at which this many hits have accumulated. */
  const EarlyStop: nat := 10

  /** The known-repository stage returns at most this many hits. */
  const KnownResultLimit: nat := 15

  /** The repository-name stage scans at most this many of the returned repositories. */
  const RepoScanLimit: nat := 3

  /** The answers of the remote services during one search:
      `listing` gives each repository's recursive tree (by full name),
      `codeSearch` the items of the code-search call,
      `repoSearch` the full names of the repositories the name search returned.
      `None` is a failed call: an HTTP or decoding error, a timeout, a non-zero exit status. */
  datatype Remote = Remote(
    listing: string -> Option<seq<string>>,
    codeSearch: Option<seq<Candidate>>,
    repoSearch: Option<seq<string>>)

  /** Python's `s[:n]`. */
  function Take<T>(s: seq<T>, n: nat): (r: seq<T>)
    ensures |r| == if |s| <= n then |s| else n
    ensures r == s[..|r|]
  {
    if |s| <= n then s else s[..n]
  }

  /** One call of `search_repo_for_epub`, with the repository's listing taken from `remote`. */
  function ScanRepo(remote: Remote, repo: string, title: string, lower: char -> char)
    : (found: seq<Candidate>)
    ensures remote.listing(repo).None? ==> found == []
    ensures forall i :: 0 <= i < |found| ==> found[i].repository == repo
  {
    SearchRepo(repo, remote.listing(repo), title, lower)
  }

  /** Every hit of every repository of `repos`, in order, with no early stop: the reference
      against which the stopping loops are stated. */
  function Harvest(remote: Remote, repos: seq<string>, title: string, lower: char -> char)
    : seq<Candidate>
    decreases |repos|
  {
    if repos == [] then []
    else ScanRepo(remote, repos[0], title, lower) + Harvest(remote, repos[1..], title, lower)
  }

  /** The scanning loop shared by both scanning stages: extend the accumulated hits with each
      repository's hits in turn, and stop once there are `EarlyStop` or more. The accumulated
      hits are kept in front, and everything added is attributed to one of `repos`. */
  function Gather(remote: Remote, repos: seq<string>, acc: seq<Candidate>, title: string,
                  lower: char -> char): (r: seq<Candidate>)
    ensures |acc| <= |r| && r[..|acc|] == acc
    ensures forall i :: |acc| <= i < |r| ==> r[i].repository in repos
    decreases |repos|
  {
    if repos == [] then acc
    else
      var grown := acc + ScanRepo(remote, repos[0], title, lower);
      if |grown| >= EarlyStop then grown
      else Gather(remote, repos[1..], grown, title, lower)
  }

  /** Everything the scanning loop adds is a well-formed hit of the repository it names. */
  lemma {:induction false} GatherFound(remote: Remote, repos: seq<string>, acc: seq<Candidate>,
                                       title: string, lower: char -> char)
    ensures var r := Gather(remote, repos, acc, title, lower);
            forall i :: |acc| <= i < |r| ==> FoundIn(r[i], r[i].repository, Tokenize(title), lower)
    decreases |repos|
  {
    if repos != [] {
      var found := ScanRepo(remote, repos[0], title, lower);
      var grown := acc + found;
      var r := Gather(remote, repos, acc, title, lower);
      assert |grown| <= |r| && r[..|grown|] == grown by {
        if |grown| < EarlyStop {
          assert r == Gather(remote, repos[1..], grown, title, lower);
        }
      }
      if |grown| < EarlyStop {
        GatherFound(remote, repos[1..], grown, title, lower);
      }
      forall i | |acc| <= i < |r|
        ensures FoundIn(r[i], r[i].repository, Tokenize(title), lower)
      {
        if i < |grown| {
          var j := i - |acc|;
          assert r[i] == grown[i] == found[j];
          SearchRepoFound(repos[0], remote.listing(repos[0]), title, lower);
          assert FoundIn(found[j], repos[0], Tokenize(title), lower);
        } else {
          assert r == Gather(remote, repos[1..], grown, title, lower);
        }
      }
    }
  }

  /** `k` is where the scanning loop stops, starting from `acc`: after the first `k`
      repositories, the first point at which `EarlyStop` hits have accumulated, or after all. */
  predicate StopsAt(remote: Remote, repos: seq<string>, acc: seq<Candidate>, title: string,
                    lower: char -> char, k: int) {
    && 0 <= k <= |repos|
    && (k == |repos| || |acc| + |Harvest(remote, repos[..k], title, lower)| >= EarlyStop)
    && forall j :: 0 <= j < k ==> |acc| + |Harvest(remote, repos[..j], title, lower)| < EarlyStop
  }

  /** Harvesting the first `j + 1` repositories is the first one's hits followed by the next `j`'s. */
  lemma HarvestStep(remote: Remote, repos: seq<string>, title: string, lower: char -> char, j: nat)
    requires j < |repos|
    ensures Harvest(remote, repos[..j + 1], title, lower)
         == ScanRepo(remote, repos[0], title, lower) + Harvest(remote, repos[1..][..j], title, lower)
  {
    assert repos[..j + 1][0] == repos[0];
    assert repos[..j + 1][1..] == repos[1..][..j];
  }

  /** Harvesting distributes over concatenation of repository lists. */
  lemma {:induction false} HarvestAppend(remote: Remote, a: seq<string>, b: seq<string>,
                                         title: string, lower: char -> char)
    ensures Harvest(remote, a + b, title, lower)
         == Harvest(remote, a, title, lower) + Harvest(remote, b, title, lower)
    decreases |a|
  {
    if a == [] {
      assert a + b == b;
    } else {
      assert (a + b)[0] == a[0];
      assert (a + b)[1..] == a[1..] + b;
      HarvestAppend(remote, a[1..], b, title, lower);
    }
  }

  /** The scanning loop's result is the accumulated hits followed by the hits of exactly the
      repositories up to its stopping point, in list order; no later repository is consulted. */
  lemma {:induction false} GatherStops(remote: Remote, repos: seq<string>, acc: seq<Candidate>,
                                       title: string, lower: char -> char)
    requires |acc| < EarlyStop
    ensures exists k :: StopsAt(remote, repos, acc, title, lower, k)
              && Gather(remote, repos, acc, title, lower) == acc + Harvest(remote, repos[..k], title, lower)
    decreases |repos|
  {
    if repos == [] {
      assert acc + Harvest(remote, repos[..0], title, lower) == acc;
      assert StopsAt(remote, repos, acc, title, lower, 0);
    } else {
      var first := ScanRepo(remote, repos[0], title, lower);
      var grown := acc + first;
      HarvestStep(remote, repos, title, lower, 0);
      assert Harvest(remote, repos[..0], title, lower) == [];
      if |grown| >= EarlyStop {
        assert Harvest(remote, repos[..1], title, lower) == first;
        assert StopsAt(remote, repos, acc, title, lower, 1);
      } else {
        GatherStops(remote, repos[1..], grown, title, lower);
        var k' :| StopsAt(remote, repos[1..], grown, title, lower, k')
               && Gather(remote, repos[1..], grown, title, lower)
                  == grown + Harvest(remote, repos[1..][..k'], title, lower);
        StopsAtCons(remote, repos, acc, title, lower, k');
        HarvestAfter(remote, repos, acc, title, lower, k');
      }
    }
  }

  /** The accumulated hits followed by the hits of the first `k + 1` repositories are the hits
      accumulated after the first repository followed by those of the next `k`. */
  lemma HarvestAfter(remote: Remote, repos: seq<string>, acc: seq<Candidate>, title: string,
                     lower: char -> char, k: nat)
    requires k < |repos|
    ensures acc + Harvest(remote, repos[..k + 1], title, lower)
         == (acc + ScanRepo(remote, repos[0], title, lower)) + Harvest(remote, repos[1..][..k], title, lower)
  {
    HarvestStep(remote, repos, title, lower, k);
  }

  /** A stopping point of the loop over the rest of the list, started after the first
      repository, is one more than a stopping point of the loop over the whole list. */
  lemma StopsAtCons(remote: Remote, repos: seq<string>, acc: seq<Candidate>, title: string,
                    lower: char -> char, k: int)
    requires repos != [] && |acc| < EarlyStop
    requires StopsAt(remote, repos[1..], acc + ScanRepo(remote, repos[0], title, lower), title, lower, k)
    ensures StopsAt(remote, repos, acc, title, lower, k + 1)
  {
    var grown := acc + ScanRepo(remote, repos[0], title, lower);
    forall j | 0 <= j <= k
      ensures |acc| + |Harvest(remote, repos[..j + 1], title, lower)|
           == |grown| + |Harvest(remote, repos[1..][..j], title, lower)|
    {
      HarvestStep(remote, repos, title, lower, j);
    }
    assert Harvest(remote, repos[..0], title, lower) == [];
    forall j | 0 <= j < k + 1
      ensures |acc| + |Harvest(remote, repos[..j], title, lower)| < EarlyStop
    {
      if j > 0 {
        assert |acc| + |Harvest(remote, repos[..j], title, lower)|
            == |grown| + |Harvest(remote, repos[1..][..j - 1], title, lower)|;
      }
    }
  }

  /** The hits of a prefix of the repository list are a prefix of the hits of the whole list. */
  lemma HarvestPrefix(remote: Remote, repos: seq<string>, title: string, lower: char -> char, k: nat)
    requires k <= |repos|
    ensures Harvest(remote, repos, title, lower)
         == Harvest(remote, repos[..k], title, lower) + Harvest(remote, repos[k..], title, lower)
  {
    assert repos == repos[..k] + repos[k..];
    HarvestAppend(remote, repos[..k], repos[k..], title, lower);
  }

  /** Started empty, the scanning loop returns a prefix of all the hits of the list, and all of
      them whenever it returns fewer than `EarlyStop`. */
  lemma GatherIsPrefix(remote: Remote, repos: seq<string>, title: string, lower: char -> char)
    ensures var r := Gather(remote, repos, [], title, lower);
            var all := Harvest(remote, repos, title, lower);
            && |r| <= |all| && r == all[..|r|]
            && (|r| < EarlyStop ==> r == all)
  {
    GatherStops(remote, repos, [], title, lower);
    var k :| StopsAt(remote, repos, [], title, lower, k)
           && Gather(remote, repos, [], title, lower) == [] + Harvest(remote, repos[..k], title, lower);
    HarvestPrefix(remote, repos, title, lower, k);
    if k == |repos| {
      assert repos[..k] == repos;
    }
  }

  /** When every repository's listing fails the loop finds nothing. */
  lemma {:induction false} GatherAllFail(remote: Remote, repos: seq<string>, title: string,
                                         lower: char -> char)
    requires forall i :: 0 <= i < |repos| ==> remote.listing(repos[i]).None?
    ensures Harvest(remote, repos, title, lower) == []
    ensures Gather(remote, repos, [], title, lower) == []
    decreases |repos|
  {
    if repos != [] {
      GatherAllFail(remote, repos[1..], title, lower);
    }
  }

  /** Two remotes that give the same listing for each repository of `repos` give the same
      scanning result: nothing outside the list is consulted. */
  lemma {:induction false} GatherFrame(remote: Remote, other: Remote, repos: seq<string>,
                                       acc: seq<Candidate>, title: string, lower: char -> char)
    requires forall i :: 0 <= i < |repos| ==> remote.listing(repos[i]) == other.listing(repos[i])
    ensures Gather(remote, repos, acc, title, lower) == Gather(other, repos, acc, title, lower)
    decreases |repos|
  {
    if repos != [] {
      var grown := acc + ScanRepo(remote, repos[0], title, lower);
      GatherFrame(remote, other, repos[1..], grown, title, lower);
    }
  }

  /** Stage 1: the known repositories, scanned in list order. */
  function KnownStage(remote: Remote, title: string, lower: char -> char): (found: seq<Candidate>)
    ensures forall i :: 0 <= i < |found| ==> found[i].repository in KnownEbookRepos
  {
    Gather(remote, KnownEbookRepos, [], title, lower)
  }

  /** Stage 3 (`search_github_repos`): a failed repository search gives nothing; otherwise the
      first `RepoScanLimit` repositories it names are scanned like the known ones. */
  function RepoNameStage(remote: Remote, title: string, lower: char -> char): (found: seq<Candidate>)
    ensures remote.repoSearch.None? ==> found == []
    ensures forall i :: 0 <= i < |found| ==>
              remote.repoSearch.Some? && found[i].repository in Take(remote.repoSearch.value, RepoScanLimit)
  {
    match remote.repoSearch
    case None => []
    case Some(repos) => Gather(remote, Take(repos, RepoScanLimit), [], title, lower)
  }

  /** Where a result of the whole search may come from: verbatim from the code search, or a
      well-formed hit of a known repository or of one of the first repositories the name
      search returned. */
  predicate Provenance(c: Candidate, remote: Remote, title: string, lower: char -> char) {
    || (remote.codeSearch.Some? && c in remote.codeSearch.value)
    || (&& FoundIn(c, c.repository, Tokenize(title), lower)
        && (|| c.repository in KnownEbookRepos
            || (remote.repoSearch.Some? && c.repository in Take(remote.repoSearch.value, RepoScanLimit))))
  }

  /** `search_github`: the three stages in order, each consulted only when the earlier ones
      found nothing. */
  function SearchGithub(title: string, remote: Remote, lower: char -> char): (r: seq<Candidate>)
    ensures KnownStage(remote, title, lower) != [] ==>
              && 0 < |r| <= KnownResultLimit && |r| <= |KnownStage(remote, title, lower)|
              && |r| == (if |KnownStage(remote, title, lower)| <= KnownResultLimit
                         then |KnownStage(remote, title, lower)| else KnownResultLimit)
              && r == KnownStage(remote, title, lower)[..|r|]
  {
    var known := KnownStage(remote, title, lower);
    if known != [] then
      Take(known, KnownResultLimit)
    else if remote.codeSearch.Some? && remote.codeSearch.value != [] then
      remote.codeSearch.value
    else
      RepoNameStage(remote, title, lower)
  }

  /** Every result of the search comes from one of its three stages. */
  lemma SearchProvenance(title: string, remote: Remote, lower: char -> char)
    ensures var results := SearchGithub(title, remote, lower);
            forall i :: 0 <= i < |results| ==> Provenance(results[i], remote, title, lower)
  {
    var results := SearchGithub(title, remote, lower);
    var known := KnownStage(remote, title, lower);
    if known != [] {
      forall i | 0 <= i < |results|
        ensures Provenance(results[i], remote, title, lower)
      {
        assert results[i] == known[i];
        GatherFoundAt(remote, KnownEbookRepos, title, lower, i);
      }
    } else if remote.codeSearch.Some? && remote.codeSearch.value != [] {
    } else if remote.repoSearch.Some? {
      forall i | 0 <= i < |results|
        ensures Provenance(results[i], remote, title, lower)
      {
        GatherFoundAt(remote, Take(remote.repoSearch.value, RepoScanLimit), title, lower, i);
      }
    }
  }

  /** One hit of a scan started empty is a well-formed hit of a repository of the list. */
  lemma GatherFoundAt(remote: Remote, repos: seq<string>, title: string, lower: char -> char, i: int)
    requires 0 <= i < |Gather(remote, repos, [], title, lower)|
    ensures var c := Gather(remote, repos, [], title, lower)[i];
            c.repository in repos && FoundIn(c, c.repository, Tokenize(title), lower)
  {
    GatherFound(remote, repos, [], title, lower);
  }

  /** When the known repositories yield anything, the search returns at most 15 of their hits,
      a prefix of all their hits in list order, ending at the stopping repository, and neither
      the code search nor the repository search is consulted. */
  lemma SearchKnownShortCircuit(title: string, remote: Remote, lower: char -> char,
                                code: Option<seq<Candidate>>, repos: Option<seq<string>>)
    requires KnownStage(remote, title, lower) != []
    ensures var results := SearchGithub(title, remote, lower);
            var all := Harvest(remote, KnownEbookRepos, title, lower);
            && 0 < |results| <= KnownResultLimit
            && |results| == (if |KnownStage(remote, title, lower)| <= KnownResultLimit
                              then |KnownStage(remote, title, lower)| else KnownResultLimit)
            && |results| <= |all| && results == all[..|results|]
            && results == SearchGithub(title, remote.(codeSearch := code, repoSearch := repos), lower)
  {
    var known := KnownStage(remote, title, lower);
    var results := SearchGithub(title, remote, lower);
    var all := Harvest(remote, KnownEbookRepos, title, lower);
    assert results == Take(known, KnownResultLimit);
    assert |known| <= |all| && known == all[..|known|] by {
      GatherIsPrefix(remote, KnownEbookRepos, title, lower);
    }
    assert results == all[..|results|];
    var other := remote.(codeSearch := code, repoSearch := repos);
    assert KnownStage(other, title, lower) == known by {
      GatherFrame(remote, other, KnownEbookRepos, [], title, lower);
    }
  }

  /** The known-repository stage stops at a repository boundary: its hits are those of the
      first `k` known repositories for the stopping point `k`. */
  lemma KnownStageStops(title: string, remote: Remote, lower: char -> char)
    ensures exists k :: StopsAt(remote, KnownEbookRepos, [], title, lower, k)
              && KnownStage(remote, title, lower) == Harvest(remote, KnownEbookRepos[..k], title, lower)
  {
    GatherStops(remote, KnownEbookRepos, [], title, lower);
    var k :| StopsAt(remote, KnownEbookRepos, [], title, lower, k)
           && KnownStage(remote, title, lower) == [] + Harvest(remote, KnownEbookRepos[..k], title, lower);
    assert [] + Harvest(remote, KnownEbookRepos[..k], title, lower)
        == Harvest(remote, KnownEbookRepos[..k], title, lower);
  }

  /** When the known repositories yield nothing, a non-empty code-search answer is the result,
      unchanged. */
  lemma SearchCodeSearchVerbatim(title: string, remote: Remote, lower: char -> char)
    requires KnownStage(remote, title, lower) == []
    requires remote.codeSearch.Some? && remote.codeSearch.value != []
    ensures SearchGithub(title, remote, lower) == remote.codeSearch.value
  {
  }

  /** When the known repositories and the code search both yield nothing (the code search
      failing or answering no items), the repository-name stage decides: nothing when it
      fails, otherwise the scan of the first three repositories it names, which no other
      repository's listing can change. */
  lemma SearchRepoNameFallback(title: string, remote: Remote, lower: char -> char, other: Remote)
    requires KnownStage(remote, title, lower) == []
    requires remote.codeSearch.None? || remote.codeSearch.value == []
    requires remote.repoSearch == other.repoSearch
    requires remote.repoSearch.Some? ==>
               forall i :: 0 <= i < |Take(remote.repoSearch.value, RepoScanLimit)| ==>
                 remote.listing(Take(remote.repoSearch.value, RepoScanLimit)[i])
                   == other.listing(Take(remote.repoSearch.value, RepoScanLimit)[i])
    ensures remote.repoSearch.None? ==> SearchGithub(title, remote, lower) == []
    ensures remote.repoSearch.Some? ==>
              SearchGithub(title, remote, lower)
                == Gather(other, Take(remote.repoSearch.value, RepoScanLimit), [], title, lower)
  {
    if remote.repoSearch.Some? {
      GatherFrame(remote, other, Take(remote.repoSearch.value, RepoScanLimit), [], title, lower);
    }
  }

  /** If every known repository's listing fails, the search moves on to the code search
      instead of failing. */
  lemma SearchAllKnownFail(title: string, remote: Remote, lower: char -> char)
    requires forall i :: 0 <= i < |KnownEbookRepos| ==> remote.listing(KnownEbookRepos[i]).None?
    ensures KnownStage(remote, title, lower) == []
    ensures SearchGithub(title, remote, lower)
         == if remote.codeSearch.Some? && remote.codeSearch.value != [] then remote.codeSearch.value
            else RepoNameStage(remote, title, lower)
  {
    GatherAllFail(remote, KnownEbookRepos, title, lower);
  }

  /** The search comes back empty exactly when every stage came back empty. */
  lemma SearchEmptyIff(title: string, remote: Remote, lower: char -> char)
    ensures SearchGithub(title, remote, lower) == []
        <==> && Harvest(remote, KnownEbookRepos, title, lower) == []
             && (remote.codeSearch.None? || remote.codeSearch.value == [])
             && RepoNameStage(remote, title, lower) == []
  {
    GatherIsPrefix(remote, KnownEbookRepos, title, lower);
  }

  /** A title with no keywords finds nothing in the known repositories, so the search falls
      through to the code search. The dialog answer is stripped and an empty one ends `main`,
      so such a title reaches `search_github` only when it holds a comma and otherwise only
      separators (for example ","). */
  lemma SearchBlankTitle(title: string, remote: Remote, lower: char -> char)
    requires forall i :: 0 <= i < |title| ==> IsSeparator(title[i])
    ensures KnownStage(remote, title, lower) == []
  {
    TokenizeEmptyIff(title);
    BlankHarvest(remote, KnownEbookRepos, title, lower);
    GatherIsPrefix(remote, KnownEbookRepos, title, lower);
  }

  lemma {:induction false} BlankHarvest(remote: Remote, repos: seq<string>, title: string,
                                        lower: char -> char)
    requires Tokenize(title) == []
    ensures Harvest(remote, repos, title, lower) == []
    decreases |repos|
  {
    if repos != [] {
      var listing := remote.listing(repos[0]);
      if listing.Some? {
        MatchTreeNoKeywords(repos[0], listing.value, lower);
      }
      BlankHarvest(remote, repos[1..], title, lower);
    }
  }

  /** The hits of a list where only the repository at position `j` yields any are that
      repository's hits. */
  lemma {:induction false} HarvestOnly(remote: Remote, repos: seq<string>, title: string,
                                       lower: char -> char, j: nat)
    requires j < |repos|
    requires forall i :: 0 <= i < |repos| && i != j ==> ScanRepo(remote, repos[i], title, lower) == []
    ensures Harvest(remote, repos, title, lower) == ScanRepo(remote, repos[j], title, lower)
    decreases |repos|
  {
    if j == 0 {
      if |repos| > 1 {
        HarvestNone(remote, repos[1..], title, lower);
      } else {
        assert repos[1..] == [];
      }
    } else {
      HarvestOnly(remote, repos[1..], title, lower, j - 1);
    }
  }

  lemma {:induction false} HarvestNone(remote: Remote, repos: seq<string>, title: string,
                                       lower: char -> char)
    requires forall i :: 0 <= i < |repos| ==> ScanRepo(remote, repos[i], title, lower) == []
    ensures Harvest(remote, repos, title, lower) == []
    decreases |repos|
  {
    if repos != [] {
      HarvestNone(remote, repos[1..], title, lower);
    }
  }

  /** "Clean Code" tokenizes to its two words. */
  lemma TokenizeCleanCode(title: string)
    requires title == "Clean Code"
    ensures Tokenize(title) == ["Clean", "Code"]
  {
    var keywords := ["Clean", "Code"];
    assert IsKeyword("Clean") && IsKeyword("Code");
    assert Join(keywords, " ") == "Clean" + " " + "Code";
    assert title == Join(keywords, " ");
    TokenizeJoin(keywords);
  }

  /** The keyword `Clean` picks `src/books/CleanCode.epub` out of a one-entry listing. */
  lemma MatchCleanCode(repo: string, path: string, keywords: seq<string>, lower: char -> char)
    requires path == "src/books/CleanCode.epub"
    requires keywords == ["Clean", "Code"]
    ensures MatchTree(repo, [path], keywords, lower) == [Candidate("CleanCode.epub", path, repo)]
  {
    CleanCodeBookName(path);
    CleanCodeBookHit(path, keywords, lower);
    MatchTreeSingle(repo, path, keywords, lower);
  }

  lemma CleanCodeBookName(path: string)
    requires path == "src/books/CleanCode.epub"
    ensures LastSegment(path) == "CleanCode.epub"
  {
    assert path == "src/books/" + "CleanCode.epub";
    LastSegmentAfterSlash("src/books/", "CleanCode.epub");
  }

  lemma CleanCodeBookHit(path: string, keywords: seq<string>, lower: char -> char)
    requires path == "src/books/CleanCode.epub"
    requires keywords == ["Clean", "Code"]
    ensures IsHit(path, keywords, lower)
  {
    assert Contains(path, keywords[0]) by {
      assert path[10..15] == "Clean";
      assert OccursAt(path, keywords[0], 10);
    }
    assert AnyKeywordHits(keywords, path, lower) by {
      assert KeywordHits(keywords[0], path, lower);
    }
    assert EndsWith(path, EpubSuffix) by {
      assert path[|path| - 5..] == EpubSuffix;
    }
  }

  /** A search for "Clean Code" where only the third known repository holds an `.epub` file,
      `src/books/CleanCode.epub`, scans all five known repositories and finds exactly that
      book. */
  lemma SearchEndToEnd(title: string, remote: Remote, lower: char -> char)
    requires title == "Clean Code"
    requires remote.listing(KnownEbookRepos[2]) == Some(["src/books/CleanCode.epub"])
    requires forall i :: 0 <= i < |KnownEbookRepos| && i != 2 ==>
               || remote.listing(KnownEbookRepos[i]).None?
               || (forall j :: 0 <= j < |remote.listing(KnownEbookRepos[i]).value| ==>
                     !EndsWith(remote.listing(KnownEbookRepos[i]).value[j], EpubSuffix))
    ensures SearchGithub(title, remote, lower)
         == [Candidate("CleanCode.epub", "src/books/CleanCode.epub", "hehonghui/awesome-english-ebooks")]
  {
    var book := Candidate("CleanCode.epub", "src/books/CleanCode.epub", "hehonghui/awesome-english-ebooks");
    CleanCodeScan(title, remote, lower);
    NoEpubScans(title, remote, lower);
    assert Harvest(remote, KnownEbookRepos, title, lower) == [book] by {
      HarvestOnly(remote, KnownEbookRepos, title, lower, 2);
    }
    assert KnownStage(remote, title, lower) == [book] by {
      GatherIsPrefix(remote, KnownEbookRepos, title, lower);
    }
  }

  lemma CleanCodeScan(title: string, remote: Remote, lower: char -> char)
    requires title == "Clean Code"
    requires remote.listing(KnownEbookRepos[2]) == Some(["src/books/CleanCode.epub"])
    ensures ScanRepo(remote, KnownEbookRepos[2], title, lower)
         == [Candidate("CleanCode.epub", "src/books/CleanCode.epub", "hehonghui/awesome-english-ebooks")]
  {
    TokenizeCleanCode(title);
    MatchCleanCode(KnownEbookRepos[2], "src/books/CleanCode.epub", Tokenize(title), lower);
  }

  lemma NoEpubScans(title: string, remote: Remote, lower: char -> char)
    requires forall i :: 0 <= i < |KnownEbookRepos| && i != 2 ==>
               || remote.listing(KnownEbookRepos[i]).None?
               || (forall j :: 0 <= j < |remote.listing(KnownEbookRepos[i]).value| ==>
                     !EndsWith(remote.listing(KnownEbookRepos[i]).value[j], EpubSuffix))
    ensures forall i :: 0 <= i < |KnownEbookRepos| && i != 2 ==>
              ScanRepo(remote, KnownEbookRepos[i], title, lower) == []
  {
    forall i | 0 <= i < |KnownEbookRepos| && i != 2
      ensures ScanRepo(remote, KnownEbookRepos[i], title, lower) == []
    {
      var listing := remote.listing(KnownEbookRepos[i]);
      if listing.Some? {
        MatchTreeNoEpub(KnownEbookRepos[i], listing.value, Tokenize(title), lower);
      }
    }
  }
}
