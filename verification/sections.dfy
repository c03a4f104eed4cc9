/**
 * The traversal shared by the `format_results` functions: a dictionary
 * from section names to lists, walked section by section and, within a
 * section, item by item.
 */
module Sections {
  /** The items of all sections as (section, item) pairs, section by
      section, each in list order. */
  function Flatten<T>(results: seq<(string, seq<T>)>): (r: seq<(string, T)>)
  {
    if |results| == 0 then []
    else Flatten(results[..|results| - 1]) + Tagged(results[|results| - 1].0, results[|results| - 1].1)
  }

  /** The items of one section, each paired with the section name. */
  function Tagged<T>(section: string, items: seq<T>): (r: seq<(string, T)>)
    ensures |r| == |items| && forall k :: 0 <= k < |items| ==> r[k] == (section, items[k])
  {
    if |items| == 0 then [] else Tagged(section, items[..|items| - 1]) + [(section, items[|items| - 1])]
  }

  /** The items of a section appear in order after those of the sections
      before it. */
  lemma FlattenLast<T>(results: seq<(string, seq<T>)>, i: nat, j: nat)
    requires i < |results| && j < |results[i].1|
    ensures Flatten(results[..i]) + Tagged(results[i].0, results[i].1[..j + 1])
         == Flatten(results[..i]) + Tagged(results[i].0, results[i].1[..j]) + [(results[i].0, results[i].1[j])]
  {
    assert results[i].1[..j + 1][..j] == results[i].1[..j];
  }

  /** The pairs of the first sections form a prefix of all pairs. */
  lemma {:induction false} FlattenMono<T>(results: seq<(string, seq<T>)>, n: nat)
    requires n <= |results|
    ensures |Flatten(results[..n])| <= |Flatten(results)|
    ensures Flatten(results)[..|Flatten(results[..n])|] == Flatten(results[..n])
    decreases |results|
  {
    if n < |results| {
      var init := results[..|results| - 1];
      assert init[..n] == results[..n];
      FlattenMono(init, n);
    } else {
      assert results[..n] == results;
    }
  }

  /** The pairs before item `j` of section `i` form a prefix of all pairs. */
  lemma FlattenPrefix<T>(results: seq<(string, seq<T>)>, i: nat, j: nat)
    requires i < |results| && j <= |results[i].1|
    ensures var ps := Flatten(results[..i]) + Tagged(results[i].0, results[i].1[..j]);
      |ps| <= |Flatten(results)| && Flatten(results)[..|ps|] == ps
  {
    var (section, items) := results[i];
    var ps := Flatten(results[..i]) + Tagged(section, items[..j]);
    assert results[..i + 1][..i] == results[..i];
    var whole := Flatten(results[..i + 1]);
    assert whole == Flatten(results[..i]) + Tagged(section, items);
    assert whole[..|ps|] == ps;
    FlattenMono(results, i + 1);
  }
}
