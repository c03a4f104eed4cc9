/**
 * The file-name helpers of the post-processing script
 * (src/process_output.py): the character filter for output names, and
 * the choice of the latest `_final_` JSON file of a directory listing by
 * the timestamp its name ends with.
 */
module ProcessOutput {
  import opened Wrappers
  import opened PyStr

  // ================================================================ sanitize_filename

  /** The characters a file name may keep: `-_.() `, ASCII letters and
      digits. */
  predicate ValidChar(c: char) {
    c == '-' || c == '_' || c == '.' || c == '(' || c == ')' || c == ' ' || IsAsciiLetter(c) || IsDigit(c)
  }

  predicate AllValid(s: string) { forall i :: 0 <= i < |s| ==> ValidChar(s[i]) }

  /** `sanitize_filename`: the valid characters of `filename`, in order. */
  function SanitizeFilename(filename: string): (r: string)
    ensures |r| <= |filename|
    ensures AllValid(r)
  {
    if |filename| == 0 then ""
    else (if ValidChar(filename[0]) then [filename[0]] else []) + SanitizeFilename(filename[1..])
  }

  /** Each valid character is kept as often as it occurs, and no other
      character is kept. */
  lemma {:induction false} SanitizeFilenameCounts(filename: string, c: char)
    ensures Count(SanitizeFilename(filename), c) == if ValidChar(c) then Count(filename, c) else 0
  {
    if |filename| > 0 {
      var head := if ValidChar(filename[0]) then [filename[0]] else [];
      SanitizeFilenameCounts(filename[1..], c);
      CountConcat(head, SanitizeFilename(filename[1..]), c);
      assert head == [] || head[1..] == [];
    }
  }

  /** Sanitizing a concatenation sanitizes each part, keeping their order. */
  lemma {:induction false} SanitizeFilenameConcat(a: string, b: string)
    ensures SanitizeFilename(a + b) == SanitizeFilename(a) + SanitizeFilename(b)
  {
    if |a| == 0 {
      assert a + b == b;
    } else {
      var head := if ValidChar(a[0]) then [a[0]] else [];
      assert (a + b)[0] == a[0] && (a + b)[1..] == a[1..] + b;
      assert SanitizeFilename(a + b) == head + SanitizeFilename(a[1..] + b);
      SanitizeFilenameConcat(a[1..], b);
      assert head + (SanitizeFilename(a[1..]) + SanitizeFilename(b)) == (head + SanitizeFilename(a[1..])) + SanitizeFilename(b);
    }
  }

  /** A name made of valid characters is left unchanged. */
  lemma {:induction false} SanitizeFilenameValid(filename: string)
    requires AllValid(filename)
    ensures SanitizeFilename(filename) == filename
  {
    if |filename| > 0 {
      SanitizeFilenameValid(filename[1..]);
      assert [filename[0]] + filename[1..] == filename;
    }
  }

  /** Sanitizing twice is sanitizing once. */
  lemma SanitizeFilenameIdempotent(filename: string)
    ensures SanitizeFilename(SanitizeFilename(filename)) == SanitizeFilename(filename)
  {
    SanitizeFilenameValid(SanitizeFilename(filename));
  }

  // ================================================================ find_latest_json

  /** The names the listing comprehension keeps. */
  predicate IsFinalJson(f: string) {
    Contains(f, "_final_") && EndsWith(f, ".json")
  }

  /** The `_final_` JSON names of a listing, in listing order. */
  function FinalJsons(listing: seq<string>): (r: seq<string>)
    ensures |r| <= |listing|
    ensures forall k :: 0 <= k < |r| ==> IsFinalJson(r[k]) && r[k] in listing
    ensures forall f :: f in listing && IsFinalJson(f) ==> f in r
  {
    if |listing| == 0 then []
    else
      var init := listing[..|listing| - 1];
      var f := listing[|listing| - 1];
      assert listing == init + [f];
      FinalJsons(init) + (if IsFinalJson(f) then [f] else [])
  }

  /** A string holding `sub` holds its first character. */
  lemma {:induction false} ContainsHead(s: string, sub: string)
    requires sub != [] && Contains(s, sub)
    ensures sub[0] in s
    decreases |s|
  {
    if !StartsWith(s, sub) {
      ContainsHead(s[1..], sub);
    }
  }

  /** Splitting on a character that occurs gives at least two parts. */
  lemma {:induction false} SplitOnPresentChar(s: string, c: char)
    requires c in s
    ensures |Split(s, [c])| >= 2
    decreases |s|
  {
    if s[..1] != [c] {
      assert s[0] != c by { assert s[..1] == [s[0]]; }
      assert c in s[1..];
      SplitOnPresentChar(s[1..], c);
    }
  }

  /** A `_final_` name has at least two `_`-separated parts. */
  lemma FinalJsonParts(f: string)
    requires IsFinalJson(f)
    ensures |Split(f, "_")| >= 2
  {
    ContainsHead(f, "_final_");
    SplitOnPresentChar(f, '_');
  }

  /** `f.split("_")[-2] + " " + f.split("_")[-1].split(".json")[0]`: the
      date and time parts the name ends with. */
  function TimestampText(f: string): string
    requires |Split(f, "_")| >= 2
  {
    var parts := Split(f, "_");
    parts[|parts| - 2] + " " + Split(parts[|parts| - 1], ".json")[0]
  }

  /** The timestamp of a name, by `parse` (the `strptime` call with the
      `%Y%m%d %H%M%S` format, `None` where it raises), as an ordered
      value. */
  function Timestamp(f: string, parse: string -> Option<int>): Option<int>
    requires |Split(f, "_")| >= 2
  {
    parse(TimestampText(f))
  }

  predicate AllSplittable(fs: seq<string>) {
    forall k :: 0 <= k < |fs| ==> |Split(fs[k], "_")| >= 2
  }

  /** The name and time the loop holds after going over `fs`: the first
      name with the greatest time, `None` while no name has parsed. */
  function Latest(fs: seq<string>, parse: string -> Option<int>): Option<(string, int)>
    requires AllSplittable(fs)
  {
    if |fs| == 0 then None
    else
      var init := fs[..|fs| - 1];
      var f := fs[|fs| - 1];
      assert AllSplittable(init) by {
        assert forall k :: 0 <= k < |init| ==> init[k] == fs[k];
      }
      var best := Latest(init, parse);
      match Timestamp(f, parse)
      case None => best
      case Some(t) => if best.None? || t > best.value.1 then Some((f, t)) else best
  }

  /** One step of the loop. */
  lemma LatestStep(fs: seq<string>, i: nat, parse: string -> Option<int>)
    requires AllSplittable(fs) && i < |fs|
    ensures AllSplittable(fs[..i]) && AllSplittable(fs[..i + 1])
    ensures Latest(fs[..i + 1], parse)
         == match Timestamp(fs[i], parse)
            case None => Latest(fs[..i], parse)
            case Some(t) =>
              if Latest(fs[..i], parse).None? || t > Latest(fs[..i], parse).value.1 then Some((fs[i], t))
              else Latest(fs[..i], parse)
  {
    assert forall k :: 0 <= k < i + 1 ==> fs[..i + 1][k] == fs[k];
    assert fs[..i + 1][..i] == fs[..i];
  }

  /** The loop finds nothing exactly when no name parses. */
  lemma {:induction false} LatestNone(fs: seq<string>, parse: string -> Option<int>)
    requires AllSplittable(fs)
    ensures Latest(fs, parse).None? <==> forall k :: 0 <= k < |fs| ==> Timestamp(fs[k], parse).None?
  {
    if |fs| > 0 {
      var init := fs[..|fs| - 1];
      assert forall k :: 0 <= k < |init| ==> init[k] == fs[k];
      LatestNone(init, parse);
    }
  }

  /** What the loop holds is a listed name with the greatest time of all,
      and no earlier name has that time. */
  lemma LatestGreatest(fs: seq<string>, parse: string -> Option<int>)
    requires AllSplittable(fs)
    requires Latest(fs, parse).Some?
    ensures exists i :: (0 <= i < |fs| && fs[i] == Latest(fs, parse).value.0
      && Timestamp(fs[i], parse) == Some(Latest(fs, parse).value.1)
      && forall j :: 0 <= j < i && Timestamp(fs[j], parse).Some? ==> Timestamp(fs[j], parse).value < Latest(fs, parse).value.1)
    ensures forall j :: 0 <= j < |fs| && Timestamp(fs[j], parse).Some? ==> Timestamp(fs[j], parse).value <= Latest(fs, parse).value.1
  {
    LatestBound(fs, parse);
    var i := LatestWitness(fs, parse);
  }

  /** No listed time is above the one the loop holds. */
  lemma {:induction false} LatestBound(fs: seq<string>, parse: string -> Option<int>)
    requires AllSplittable(fs)
    ensures forall j :: 0 <= j < |fs| && Timestamp(fs[j], parse).Some? ==>
      Latest(fs, parse).Some? && Timestamp(fs[j], parse).value <= Latest(fs, parse).value.1
  {
    if |fs| > 0 {
      var n := |fs| - 1;
      var init := fs[..n];
      assert forall k :: 0 <= k < n ==> init[k] == fs[k];
      LatestBound(init, parse);
    }
  }

  /** Every listed time is below one that beats what the loop holds. */
  lemma TimesBelow(fs: seq<string>, parse: string -> Option<int>, t: int)
    requires AllSplittable(fs)
    requires Latest(fs, parse).None? || t > Latest(fs, parse).value.1
    ensures forall j :: 0 <= j < |fs| && Timestamp(fs[j], parse).Some? ==> Timestamp(fs[j], parse).value < t
  {
    if Latest(fs, parse).Some? {
      LatestBound(fs, parse);
    } else {
      LatestNone(fs, parse);
    }
  }

  /** The name the loop holds is listed, with the time held, and no
      earlier name reaches that time. */
  lemma {:induction false} LatestWitness(fs: seq<string>, parse: string -> Option<int>) returns (i: nat)
    requires AllSplittable(fs)
    requires Latest(fs, parse).Some?
    ensures i < |fs| && fs[i] == Latest(fs, parse).value.0
    ensures Timestamp(fs[i], parse) == Some(Latest(fs, parse).value.1)
    ensures forall j :: 0 <= j < i && Timestamp(fs[j], parse).Some? ==> Timestamp(fs[j], parse).value < Latest(fs, parse).value.1
  {
    var n := |fs| - 1;
    var init := fs[..n];
    assert forall k :: 0 <= k < n ==> init[k] == fs[k];
    var best := Latest(init, parse);
    var t := Timestamp(fs[n], parse);
    if t.Some? && (best.None? || t.value > best.value.1) {
      assert Latest(fs, parse) == Some((fs[n], t.value));
      TimesBelow(init, parse, t.value);
      i := n;
    } else {
      assert Latest(fs, parse) == best;
      i := LatestWitness(init, parse);
    }
  }


  /** `find_latest_json` on a directory listing. */
  function FindLatest(listing: seq<string>, parse: string -> Option<int>): Option<string>
  {
    var finals := FinalJsons(listing);
    assert AllSplittable(finals) by {
      forall k | 0 <= k < |finals| ensures |Split(finals[k], "_")| >= 2 {
        FinalJsonParts(finals[k]);
      }
    }
    match Latest(finals, parse)
    case None => None
    case Some((f, _)) => Some(f)
  }

  /** `find_latest_json`: among the `_final_` JSON names of the listing,
      the one whose timestamp parses and is the greatest, the first such
      on a tie; names whose timestamp does not parse are skipped. */
  method FindLatestJson(listing: seq<string>, parse: string -> Option<int>) returns (latestFinalJson: Option<string>)
    ensures latestFinalJson == FindLatest(listing, parse)
  {
    var finalJsons := FinalJsons(listing);
    assert AllSplittable(finalJsons) by {
      forall k | 0 <= k < |finalJsons| ensures |Split(finalJsons[k], "_")| >= 2 {
        FinalJsonParts(finalJsons[k]);
      }
    }
    latestFinalJson := None;
    var latestFinalTime: Option<int> := None;
    for i := 0 to |finalJsons|
      invariant latestFinalJson.Some? == latestFinalTime.Some?
      invariant Latest(finalJsons[..i], parse)
             == if latestFinalTime.None? then None else Some((latestFinalJson.value, latestFinalTime.value))
    {
      var f := finalJsons[i];
      LatestStep(finalJsons, i, parse);
      var dt := parse(TimestampText(f));
      if dt.Some? {
        if latestFinalTime.None? || dt.value > latestFinalTime.value {
          latestFinalTime := dt;
          latestFinalJson := Some(f);
        }
      }
    }
    assert finalJsons[..|finalJsons|] == finalJsons;
  }

  /** The name found is a `_final_` JSON name of the listing whose time is
      the greatest of all such names; `None` exactly when no such name has
      a timestamp that parses. */
  lemma FindLatestSpec(listing: seq<string>, parse: string -> Option<int>)
    ensures FindLatest(listing, parse).Some? ==>
      var found := FindLatest(listing, parse).value;
      && found in listing && IsFinalJson(found)
      && (FinalJsonParts(found); Timestamp(found, parse).Some?)
      && forall f :: f in listing && IsFinalJson(f) ==>
           (FinalJsonParts(f); Timestamp(f, parse).Some? ==> Timestamp(f, parse).value <= Timestamp(found, parse).value)
    ensures FindLatest(listing, parse).None? <==>
      forall f :: f in listing && IsFinalJson(f) ==> (FinalJsonParts(f); Timestamp(f, parse).None?)
  {
    var finals := FinalJsons(listing);
    assert AllSplittable(finals) by {
      forall k | 0 <= k < |finals| ensures |Split(finals[k], "_")| >= 2 {
        FinalJsonParts(finals[k]);
      }
    }
    LatestNone(finals, parse);
    if Latest(finals, parse).Some? {
      LatestGreatest(finals, parse);
      var found := Latest(finals, parse).value.0;
      forall f | f in listing && IsFinalJson(f) && (FinalJsonParts(f); Timestamp(f, parse).Some?)
        ensures Timestamp(f, parse).value <= Latest(finals, parse).value.1
      {
        var k :| 0 <= k < |finals| && finals[k] == f;
      }
    } else {
      forall f | f in listing && IsFinalJson(f)
        ensures (FinalJsonParts(f); Timestamp(f, parse).None?)
      {
        var k :| 0 <= k < |finals| && finals[k] == f;
      }
    }
  }
}
