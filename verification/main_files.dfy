/**
 * The choice of reference files in main.py: from the results of a file
 * search (each with a `path` and a `score`), the first `top_n` paths that
 * are unique by file name and score, in result order.
 */
module MainFiles {
  import opened Wrappers
  import opened PyStr

  /** One search result: its `path` and `score`, `None` when the key is
      missing or holds `None`. */
  datatype SearchResult = SearchResult(path: Option<string>, score: Option<real>)

  /** `os.path.basename`: what follows the last `/`. */
  function Basename(p: string): string
  {
    if |p| == 0 then ""
    else if p[|p| - 1] == '/' then ""
    else Basename(p[..|p| - 1]) + [p[|p| - 1]]
  }

  /** The file name is a suffix of the path without `/`, and it is either
      the whole path or preceded by a `/`. */
  lemma {:induction false} BasenameLastSegment(p: string)
    ensures var r := Basename(p);
      && '/' !in r
      && |r| <= |p| && r == p[|p| - |r|..]
      && (|r| < |p| ==> p[|p| - |r| - 1] == '/')
  {
    if |p| > 0 && p[|p| - 1] != '/' {
      var init := p[..|p| - 1];
      BasenameLastSegment(init);
      var r' := Basename(init);
      assert Basename(p) == r' + [p[|p| - 1]];
      SuffixSnoc(p, |r'|);
      if |r'| + 1 < |p| {
        assert p[|p| - |r'| - 2] == init[|init| - |r'| - 1];
      }
    }
  }

  /** The last `k + 1` characters: the last `k` of all but the last, then
      the last. */
  lemma SuffixSnoc(p: string, k: nat)
    requires k < |p|
    ensures p[|p| - k - 1..] == p[..|p| - 1][|p| - 1 - k..] + [p[|p| - 1]]
  {
  }

  /** A result is used when its path is non-empty and its score is set. */
  predicate Usable(x: SearchResult) {
    x.path.Some? && x.path.value != [] && x.score.Some?
  }

  /** The uniqueness key: the file name and the score. */
  function Key(x: SearchResult): (string, real)
    requires Usable(x)
  {
    (Basename(x.path.value), x.score.value)
  }

  /** Result `i` is the first usable result with its key. */
  predicate FirstOfKey(xs: seq<SearchResult>, i: nat)
    requires i < |xs|
  {
    Usable(xs[i]) && forall j :: 0 <= j < i && Usable(xs[j]) ==> Key(xs[j]) != Key(xs[i])
  }

  /** The keys of the usable results: the keys of `seen_files`. */
  function SeenKeys(xs: seq<SearchResult>): set<(string, real)>
  {
    if |xs| == 0 then {}
    else
      var x := xs[|xs| - 1];
      SeenKeys(xs[..|xs| - 1]) + (if Usable(x) then {Key(x)} else {})
  }

  /** A key is seen exactly when some usable result has it. */
  lemma {:induction false} SeenKeysIff(xs: seq<SearchResult>, k: (string, real))
    ensures k in SeenKeys(xs) <==> exists j :: 0 <= j < |xs| && Usable(xs[j]) && Key(xs[j]) == k
  {
    if |xs| > 0 {
      var n := |xs| - 1;
      var init := xs[..n];
      SeenKeysIff(init, k);
      if k in SeenKeys(init) {
        var j :| 0 <= j < n && Usable(init[j]) && Key(init[j]) == k;
        assert xs[j] == init[j];
      } else {
        assert forall j :: 0 <= j < n ==> init[j] == xs[j];
      }
    }
  }

  /** The indices of the results the loop appends, in order. */
  function KeptIndices(xs: seq<SearchResult>): (r: seq<nat>)
    ensures forall k :: 0 <= k < |r| ==> r[k] < |xs|
  {
    if |xs| == 0 then []
    else
      var init := xs[..|xs| - 1];
      var x := xs[|xs| - 1];
      KeptIndices(init) + (if Usable(x) && Key(x) !in SeenKeys(init) then [|xs| - 1] else [])
  }

  /** The kept results are exactly the first result of each key, in
      increasing order. */
  lemma KeptIndicesFirsts(xs: seq<SearchResult>)
    ensures forall k :: 0 <= k < |KeptIndices(xs)| ==> KeptIndices(xs)[k] < |xs| && FirstOfKey(xs, KeptIndices(xs)[k])
    ensures forall k, l :: 0 <= k < l < |KeptIndices(xs)| ==> KeptIndices(xs)[k] < KeptIndices(xs)[l]
    ensures forall i :: 0 <= i < |xs| && FirstOfKey(xs, i) ==> i in KeptIndices(xs)
  {
    KeptIndicesSound(xs);
    KeptIndicesIncreasing(xs);
    KeptIndicesComplete(xs);
  }

  lemma {:induction false} KeptIndicesSound(xs: seq<SearchResult>)
    ensures forall k :: 0 <= k < |KeptIndices(xs)| ==> FirstOfKey(xs, KeptIndices(xs)[k])
  {
    if |xs| > 0 {
      KeptIndicesSound(xs[..|xs| - 1]);
      FirstOfKeyInit(xs);
      FirstOfKeyLast(xs);
    }
  }

  lemma {:induction false} KeptIndicesIncreasing(xs: seq<SearchResult>)
    ensures forall k, l :: 0 <= k < l < |KeptIndices(xs)| ==> KeptIndices(xs)[k] < KeptIndices(xs)[l]
  {
    if |xs| > 0 {
      KeptIndicesIncreasing(xs[..|xs| - 1]);
    }
  }

  lemma {:induction false} KeptIndicesComplete(xs: seq<SearchResult>)
    ensures forall i :: 0 <= i < |xs| && FirstOfKey(xs, i) ==> i in KeptIndices(xs)
  {
    if |xs| > 0 {
      KeptIndicesComplete(xs[..|xs| - 1]);
      FirstOfKeyInit(xs);
      FirstOfKeyLast(xs);
    }
  }

  /** Before the last result, being first of its key does not depend on
      the last result. */
  lemma FirstOfKeyInit(xs: seq<SearchResult>)
    requires |xs| > 0
    ensures forall i :: 0 <= i < |xs| - 1 ==> (FirstOfKey(xs, i) <==> FirstOfKey(xs[..|xs| - 1], i))
  {
    var init := xs[..|xs| - 1];
    assert forall j :: 0 <= j < |init| ==> init[j] == xs[j];
  }

  /** The last result is first of its key exactly when the loop keeps it. */
  lemma FirstOfKeyLast(xs: seq<SearchResult>)
    requires |xs| > 0
    ensures var n := |xs| - 1;
      FirstOfKey(xs, n) <==> Usable(xs[n]) && Key(xs[n]) !in SeenKeys(xs[..n])
  {
    var n := |xs| - 1;
    if Usable(xs[n]) {
      if Key(xs[n]) in SeenKeys(xs[..n]) {
        SeenKeyRepeated(xs);
      } else {
        NewKeyFirst(xs);
      }
    }
  }

  lemma SeenKeyRepeated(xs: seq<SearchResult>)
    requires |xs| > 0 && Usable(xs[|xs| - 1]) && Key(xs[|xs| - 1]) in SeenKeys(xs[..|xs| - 1])
    ensures !FirstOfKey(xs, |xs| - 1)
  {
    var n := |xs| - 1;
    var init := xs[..n];
    SeenKeysIff(init, Key(xs[n]));
    var j :| 0 <= j < n && Usable(init[j]) && Key(init[j]) == Key(xs[n]);
    assert xs[j] == init[j];
  }

  lemma NewKeyFirst(xs: seq<SearchResult>)
    requires |xs| > 0 && Usable(xs[|xs| - 1]) && Key(xs[|xs| - 1]) !in SeenKeys(xs[..|xs| - 1])
    ensures FirstOfKey(xs, |xs| - 1)
  {
    var n := |xs| - 1;
    var init := xs[..n];
    SeenKeysIff(init, Key(xs[n]));
    forall j | 0 <= j < n && Usable(xs[j])
      ensures Key(xs[j]) != Key(xs[n])
    {
      assert init[j] == xs[j];
    }
  }


  /** The paths of the results the loop appends. */
  function UniquePaths(xs: seq<SearchResult>): (r: seq<string>)
  {
    if |xs| == 0 then []
    else
      var init := xs[..|xs| - 1];
      var x := xs[|xs| - 1];
      UniquePaths(init) + (if Usable(x) && Key(x) !in SeenKeys(init) then [x.path.value] else [])
  }

  /** `unique_files` holds the path of each kept result. */
  lemma {:induction false} UniquePathsOfKept(xs: seq<SearchResult>)
    ensures |UniquePaths(xs)| == |KeptIndices(xs)|
    ensures forall k :: 0 <= k < |UniquePaths(xs)| ==>
      KeptIndices(xs)[k] < |xs| && xs[KeptIndices(xs)[k]].path.Some? && UniquePaths(xs)[k] == xs[KeptIndices(xs)[k]].path.value
  {
    if |xs| > 0 {
      var init := xs[..|xs| - 1];
      UniquePathsOfKept(init);
      assert forall j :: 0 <= j < |init| ==> init[j] == xs[j];
    }
  }

  /** `extract_top_unique_files_from_json` */
  function TopUniqueFiles(xs: seq<SearchResult>, topN: int): seq<string>
  {
    Take(UniquePaths(xs), topN)
  }

  /** The result is a prefix of the unique paths, no longer than `top_n`
      (for a non-negative `top_n`) and as long as possible. */
  lemma TopUniqueFilesPrefix(xs: seq<SearchResult>, topN: int)
    requires topN >= 0
    ensures |TopUniqueFiles(xs, topN)| == if topN < |UniquePaths(xs)| then topN else |UniquePaths(xs)|
    ensures TopUniqueFiles(xs, topN) == UniquePaths(xs)[..|TopUniqueFiles(xs, topN)|]
  {
  }

  /** Results that repeat an earlier key add nothing. */
  lemma RepeatIgnored(xs: seq<SearchResult>, x: SearchResult)
    requires Usable(x) && exists j :: 0 <= j < |xs| && Usable(xs[j]) && Key(xs[j]) == Key(x)
    ensures UniquePaths(xs + [x]) == UniquePaths(xs)
  {
    assert (xs + [x])[..|xs|] == xs;
    SeenKeysIff(xs, Key(x));
  }

  /** `extract_top_unique_files_from_json`: keep the path of each usable
      result whose (file name, score) was not seen before, then cut the
      list to `top_n`. */
  method ExtractTopUniqueFiles(results: seq<SearchResult>, topN: int) returns (files: seq<string>)
    ensures files == TopUniqueFiles(results, topN)
  {
    var seenFiles: set<(string, real)> := {};
    var uniqueFiles: seq<string> := [];
    for i := 0 to |results|
      invariant seenFiles == SeenKeys(results[..i])
      invariant uniqueFiles == UniquePaths(results[..i])
    {
      var item := results[i];
      assert results[..i + 1][..i] == results[..i];
      if item.path.Some? && item.path.value != [] && item.score.Some? {
        var key := (Basename(item.path.value), item.score.value);
        if key !in seenFiles {
          seenFiles := seenFiles + {key};
          uniqueFiles := uniqueFiles + [item.path.value];
        }
      }
    }
    assert results[..|results|] == results;
    files := Take(uniqueFiles, topN);
  }
}
