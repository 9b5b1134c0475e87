/**
 What `main` does with the search results: one display label per result, the chosen label
 mapped back to its result, the download address and default file name built from it, and
 the `.epub` extension guaranteed on the save path. The dialogs are inputs (`Dialogs`);
 `None` is a cancelled or failed dialog.
 */
module Present {
  import opened Wrappers
  import opened Text
  import opened TreeMatch
  import opened Search

  /** Labels longer than this are truncated (a limit of the list dialog). */
  const LabelLimit: nat := 60

  /** How much of a truncated label's text is kept before the marker. */
  const LabelKeep: nat := 57

  /** The truncation marker. */
  const Ellipsis: string := "..."

  /** `f"{name} ({repo})"` where `repo` is the repository full name after its last slash. */
  function Display(c: Candidate): string {
    c.name + " (" + LastSegment(c.repository) + ")"
  }

  /** The display text is the file name, then the repository's short name in parentheses;
      the short name is a slash-free tail of the repository's full name. */
  lemma DisplayShape(c: Candidate)
    ensures var d := Display(c);
            && |c.name| + 3 <= |d| && d[..|c.name|] == c.name
            && d[|c.name|..|c.name| + 2] == " (" && d[|d| - 1] == ')'
            && var short := d[|c.name| + 2..|d| - 1];
               && '/' !in short && EndsWith(c.repository, short)
               && (|short| == |c.repository| || c.repository[|c.repository| - |short| - 1] == '/')
  {
    var short := LastSegment(c.repository);
    var d := Display(c);
    assert d == c.name + (" (" + (short + ")"));
    assert d[|c.name| + 2..|d| - 1] == short;
  }

  /** The list-dialog label of one result: its display text when that fits in `LabelLimit`
      characters, otherwise its first `LabelKeep` characters followed by the marker. */
  function Label(c: Candidate): (shown: string)
    ensures |shown| <= LabelLimit
    ensures shown == Display(c) <==> |Display(c)| <= LabelLimit
    ensures var n := if |Display(c)| < LabelKeep then |Display(c)| else LabelKeep;
            n <= |shown| && shown[..n] == Display(c)[..n]
    ensures |Display(c)| > LabelLimit ==> |shown| == LabelLimit && EndsWith(shown, Ellipsis)
  {
    var display := Display(c);
    if |display| > LabelLimit then display[..LabelKeep] + Ellipsis else display
  }

  /** The labels of all results, in result order. */
  function LabelsOf(results: seq<Candidate>): (labels: seq<string>)
    ensures |labels| == |results|
    ensures forall i :: 0 <= i < |results| ==> labels[i] == Label(results[i])
  {
    seq(|results|, i requires 0 <= i < |results| => Label(results[i]))
  }

  /** Every label starts with the display text: a label is never empty, so the chosen label is
      never mistaken for a cancelled dialog. */
  lemma LabelNonEmpty(c: Candidate)
    ensures Label(c) != []
    ensures |c.name| < LabelKeep ==> Label(c)[..|c.name|] == c.name
  {
    var display := Display(c);
    assert display[..|c.name|] == c.name;
  }

  /** Two results whose file names differ within the first `LabelKeep` characters get different
      labels, truncated or not. */
  lemma LabelsDistinguishNames(c: Candidate, d: Candidate, i: nat)
    requires i < LabelKeep && i < |c.name| && i < |d.name|
    requires c.name[i] != d.name[i]
    ensures Label(c) != Label(d)
  {
    assert Display(c)[i] == c.name[i];
    assert Display(d)[i] == d.name[i];
    assert Label(c)[..i + 1][i] == Display(c)[i];
    assert Label(d)[..i + 1][i] == Display(d)[i];
  }

  /** Python's `items.index(x)`: the first position holding `x`, or `None` for the `ValueError`
      raised when there is none. */
  function IndexOf(items: seq<string>, x: string): (r: Option<nat>)
    ensures r.Some? ==> r.value < |items| && items[r.value] == x
    ensures r.Some? ==> forall j :: 0 <= j < r.value ==> items[j] != x
    ensures r.None? <==> x !in items
    decreases |items|
  {
    if items == [] then None
    else if items[0] == x then Some(0)
    else match IndexOf(items[1..], x)
      case None => None
      case Some(i) => Some(i + 1)
  }

  /** What the list dialog's answer resolves to. */
  datatype Selection =
    | Cancelled                                  // no answer: `main` exits
    | Unlisted                                   // an answer that is no label: `index` raises
    | Picked(index: nat, choice: Candidate)      // the result at the first position with that label

  /** The chosen label mapped back to a result by its first position in the label list. */
  function Select(results: seq<Candidate>, selected: Option<string>): (s: Selection)
    ensures s.Cancelled? <==> selected.None? || selected.value == []
    ensures s.Unlisted? <==> selected.Some? && selected.value != [] && selected.value !in LabelsOf(results)
    ensures s.Picked? ==> s.index < |results| && s.choice == results[s.index]
                          && Label(s.choice) == selected.value
    ensures s.Picked? ==> forall j :: 0 <= j < s.index ==> Label(results[j]) != selected.value
  {
    if selected.None? || selected.value == [] then Cancelled
    else
      match IndexOf(LabelsOf(results), selected.value)
      case None => Unlisted
      case Some(i) => Picked(i, results[i])
  }

  /** Round trip: when the labels are pairwise different, choosing a result's label selects
      exactly that result. */
  lemma SelectLabel(results: seq<Candidate>, i: nat)
    requires i < |results|
    requires forall j, k :: 0 <= j < k < |results| ==> Label(results[j]) != Label(results[k])
    ensures Select(results, Some(Label(results[i]))) == Picked(i, results[i])
  {
    var labels := LabelsOf(results);
    assert forall j, k :: 0 <= j < k < |labels| ==> labels[j] != labels[k] by {
      forall j, k | 0 <= j < k < |labels|
        ensures labels[j] != labels[k]
      {
        assert labels[j] == Label(results[j]) && labels[k] == Label(results[k]);
      }
    }
    IndexOfDistinct(labels, i);
    LabelNonEmpty(results[i]);
  }

  /** In a list without repetitions, the first position of the element at `i` is `i`. */
  lemma IndexOfDistinct(items: seq<string>, i: nat)
    requires i < |items|
    requires forall j, k :: 0 <= j < k < |items| ==> items[j] != items[k]
    ensures IndexOf(items, items[i]) == Some(i)
  {
    assert items[i] in items;
  }

  /** Labels need not be different: two books with the same file name in equally named
      repositories share a label, and choosing it always selects the first of them. */
  lemma SelectSharedLabel()
    ensures var first := Candidate("Clean_Code.epub", "a/Clean_Code.epub", "fancy88/iBook");
            var second := Candidate("Clean_Code.epub", "b/Clean_Code.epub", "fancy88/iBook");
            && first != second
            && Label(first) == Label(second)
            && Select([first, second], Some(Label(second))) == Picked(0, first)
  {
    var first := Candidate("Clean_Code.epub", "a/Clean_Code.epub", "fancy88/iBook");
    var second := Candidate("Clean_Code.epub", "b/Clean_Code.epub", "fancy88/iBook");
    assert first.path[0] != second.path[0];
    LabelNonEmpty(second);
  }

  /** A character `sanitize_filename` removes: one of `<>:"/\|?*`, unsafe in file names. */
  predicate IsUnsafe(c: char) {
    c == '<' || c == '>' || c == ':' || c == '"' || c == '/' || c == '\\' || c == '|' || c == '?' || c == '*'
  }

  /** A character `sanitize_filename` keeps. */
  predicate IsSafe(c: char) {
    !IsUnsafe(c)
  }

  /** `sanitize_filename`: the name with every unsafe character removed and every other
      character kept, in order. */
  function Sanitize(name: string): (r: string)
    ensures forall i :: 0 <= i < |r| ==> !IsUnsafe(r[i])
    ensures |r| + |Filter(name, IsUnsafe)| == |name|
  {
    FilterPartition(name, IsSafe, IsUnsafe);
    Filter(name, IsSafe)
  }

  /** A name with no unsafe character is kept as it is. */
  lemma SanitizeSafe(name: string)
    requires forall i :: 0 <= i < |name| ==> !IsUnsafe(name[i])
    ensures Sanitize(name) == name
  {
    FilterAllKept(name, IsSafe);
  }

  /** Sanitizing a sanitized name changes nothing. */
  lemma SanitizeIdempotent(name: string)
    ensures Sanitize(Sanitize(name)) == Sanitize(name)
  {
    FilterIdempotent(name, IsSafe);
  }

  /** Sanitizing works character by character and never reorders: it distributes over
      concatenation, dropping an unsafe character and keeping any other. */
  lemma SanitizeAppend(a: string, b: string)
    ensures Sanitize(a + b) == Sanitize(a) + Sanitize(b)
    ensures |a| == 1 ==> Sanitize(a) == if IsUnsafe(a[0]) then [] else a
  {
    FilterAppend(a, b, IsSafe);
    if |a| == 1 {
      assert a[1..] == [];
    }
  }

  /** Removing one unsafe character between two pieces. */
  lemma SanitizeDrop(a: string, u: char, b: string)
    requires IsUnsafe(u)
    ensures Sanitize(a + [u] + b) == Sanitize(a) + Sanitize(b)
  {
    assert a + [u] + b == a + ([u] + b);
    SanitizeAppend([u], b);
    SanitizeAppend(a, [u] + b);
  }

  /** Four safe pieces separated by three unsafe characters sanitize to the pieces joined. */
  lemma SanitizeDropThree(a: string, u: char, b: string, v: char, c: string, w: char, d: string)
    requires IsUnsafe(u) && IsUnsafe(v) && IsUnsafe(w)
    requires forall i :: 0 <= i < |a| ==> IsSafe(a[i])
    requires forall i :: 0 <= i < |b| ==> IsSafe(b[i])
    requires forall i :: 0 <= i < |c| ==> IsSafe(c[i])
    requires forall i :: 0 <= i < |d| ==> IsSafe(d[i])
    ensures Sanitize(a + [u] + b + [v] + c + [w] + d) == a + b + c + d
  {
    var tail := c + [w] + d;
    var middle := b + [v] + tail;
    assert a + [u] + b + [v] + c + [w] + d == a + [u] + middle;
    assert Sanitize(tail) == c + d by {
      SanitizeDrop(c, w, d);
      SanitizeSafe(c);
      SanitizeSafe(d);
    }
    assert Sanitize(middle) == b + (c + d) by {
      SanitizeDrop(b, v, tail);
      SanitizeSafe(b);
    }
    assert Sanitize(a + [u] + middle) == a + (b + (c + d)) by {
      SanitizeDrop(a, u, middle);
      SanitizeSafe(a);
    }
  }

  /** The colon, slash and question mark go; nothing else changes, spaces included. */
  lemma SanitizeExample(name: string)
    requires name == "Report: Draft/Final?.epub"
    ensures Sanitize(name) == "Report DraftFinal.epub"
  {
    var a, b, c, d := "Report", " Draft", "Final", ".epub";
    assert name == a + [':'] + b + ['/'] + c + ['?'] + d;
    assert a + b + c + d == "Report DraftFinal.epub";
    assert forall i :: 0 <= i < |a| ==> IsSafe(a[i]);
    assert forall i :: 0 <= i < |b| ==> IsSafe(b[i]);
    assert forall i :: 0 <= i < |c| ==> IsSafe(c[i]);
    assert forall i :: 0 <= i < |d| ==> IsSafe(d[i]);
    SanitizeDropThree(a, ':', b, '/', c, '?', d);
  }

  /** The save path with `.epub` appended unless it already ends so. */
  function EnsureEpub(savePath: string): (r: string)
    ensures EndsWith(r, EpubSuffix)
    ensures EndsWith(savePath, EpubSuffix) ==> r == savePath
    ensures |savePath| <= |r| <= |savePath| + |EpubSuffix| && r[..|savePath|] == savePath
    ensures !EndsWith(savePath, EpubSuffix) ==> |r| == |savePath| + |EpubSuffix|
  {
    if EndsWith(savePath, EpubSuffix) then savePath else savePath + EpubSuffix
  }

  /** Ensuring the extension twice is ensuring it once. */
  lemma EnsureEpubIdempotent(savePath: string)
    ensures EnsureEpub(EnsureEpub(savePath)) == EnsureEpub(savePath)
  {
  }

  /** The raw-file address of a result; the percent-encoding of the path is a parameter. */
  function DownloadUrl(c: Candidate, quote: string -> string): string {
    "https://github.com/" + c.repository + "/raw/HEAD/" + quote(c.path)
  }

  /** The download address is on github.com, names the result's repository right after the
      host, then the raw-file segment `/raw/HEAD/` of the default branch, and ends with the
      encoded path of the file. */
  lemma DownloadUrlShape(c: Candidate, quote: string -> string)
    ensures var url := DownloadUrl(c, quote);
            && |url| > 19 + |c.repository| && url[..19] == "https://github.com/"
            && |url| == 29 + |c.repository| + |quote(c.path)|
            && url[19..19 + |c.repository|] == c.repository
            && url[19 + |c.repository|..29 + |c.repository|] == "/raw/HEAD/"
            && EndsWith(url, quote(c.path))
  {
  }

  /** The answers of the dialogs of one run: the title typed in, the label picked from a list,
      and the save path chosen for a proposed file name. */
  datatype Dialogs = Dialogs(
    title: Option<string>,
    pick: seq<string> -> Option<string>,
    saveAs: string -> Option<string>)

  /** How one run of `main` ends, up to the download itself. */
  datatype Outcome =
    | Exit                                       // a dialog was cancelled
    | NotFound                                   // the search found nothing
    | SelectionError                             // the picked answer is no label
    | Download(url: string, savePath: string)    // the file to fetch and where to write it

  /** One run of `main`, from the title dialog to the download request. */
  function Session(dialogs: Dialogs, remote: Remote, lower: char -> char, quote: string -> string)
    : (o: Outcome)
    ensures dialogs.title.None? || dialogs.title.value == [] ==> o.Exit?
    ensures o.NotFound? <==> dialogs.title.Some? && dialogs.title.value != []
                             && SearchGithub(dialogs.title.value, remote, lower) == []
    ensures o.SelectionError? <==>
              && dialogs.title.Some? && dialogs.title.value != []
              && var labels := LabelsOf(SearchGithub(dialogs.title.value, remote, lower));
                 var answer := dialogs.pick(labels);
                 && labels != []
                 && answer.Some? && answer.value != [] && answer.value !in labels
    ensures o.Download? ==> EndsWith(o.savePath, EpubSuffix)
    ensures o.Download? ==>
              exists i :: 0 <= i < |SearchGithub(dialogs.title.value, remote, lower)|
                && o.url == DownloadUrl(SearchGithub(dialogs.title.value, remote, lower)[i], quote)
  {
    if dialogs.title.None? || dialogs.title.value == [] then Exit
    else
      var results := SearchGithub(dialogs.title.value, remote, lower);
      if results == [] then NotFound
      else
        match Select(results, dialogs.pick(LabelsOf(results)))
        case Cancelled => Exit
        case Unlisted => SelectionError
        case Picked(i, choice) =>
          var saved := dialogs.saveAs(Sanitize(choice.name));
          if saved.None? || saved.value == [] then Exit
          else Download(DownloadUrl(choice, quote), EnsureEpub(saved.value))
  }

  /** When the labels are pairwise different and the user picks a result's label and a save
      path, that result is downloaded to that path (with `.epub` ensured), and the name
      proposed for saving was the result's sanitized file name. */
  lemma SessionDownloadsPicked(dialogs: Dialogs, remote: Remote, lower: char -> char,
                               quote: string -> string, i: nat)
    requires dialogs.title.Some? && dialogs.title.value != []
    requires var results := SearchGithub(dialogs.title.value, remote, lower);
             && i < |results|
             && (forall j, k :: 0 <= j < k < |results| ==> Label(results[j]) != Label(results[k]))
             && dialogs.pick(LabelsOf(results)) == Some(Label(results[i]))
             && dialogs.saveAs(Sanitize(results[i].name)).Some?
             && dialogs.saveAs(Sanitize(results[i].name)).value != []
    ensures var results := SearchGithub(dialogs.title.value, remote, lower);
            Session(dialogs, remote, lower, quote)
              == Download(DownloadUrl(results[i], quote),
                          EnsureEpub(dialogs.saveAs(Sanitize(results[i].name)).value))
  {
    var results := SearchGithub(dialogs.title.value, remote, lower);
    SelectLabel(results, i);
    SessionAfterPick(dialogs, remote, lower, quote, i);
  }

  /** Once the picked label resolves to the result at `i` and a save path is given, the run
      downloads that result to that path. */
  lemma SessionAfterPick(dialogs: Dialogs, remote: Remote, lower: char -> char,
                         quote: string -> string, i: nat)
    requires dialogs.title.Some? && dialogs.title.value != []
    requires var results := SearchGithub(dialogs.title.value, remote, lower);
             && i < |results|
             && Select(results, dialogs.pick(LabelsOf(results))) == Picked(i, results[i])
             && dialogs.saveAs(Sanitize(results[i].name)).Some?
             && dialogs.saveAs(Sanitize(results[i].name)).value != []
    ensures var results := SearchGithub(dialogs.title.value, remote, lower);
            Session(dialogs, remote, lower, quote)
              == Download(DownloadUrl(results[i], quote),
                          EnsureEpub(dialogs.saveAs(Sanitize(results[i].name)).value))
  {
  }
}
