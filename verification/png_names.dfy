/**
 The list of image names the run works through: each directory listing
 keeps only names ending in ".png" (case-sensitive), and the two lists are
 merged into their de-duplicated union, baseline names first, each at its
 first occurrence. When either side has no PNG at all the run gets no
 names.
 */
module PngNames {
  import opened Basics

  const PNG_SUFFIX: string := ".png"

  /** `filename.endsWith(".png")`. */
  predicate IsPng(name: string)
  {
    |name| >= |PNG_SUFFIX| && name[|name| - |PNG_SUFFIX|..] == PNG_SUFFIX
  }

  /** `names.filter(filterOutAnythingButPngs)`: order kept. */
  function FilterPngs(names: seq<string>): (r: seq<string>)
    ensures |r| <= |names|
    ensures forall n :: n in r <==> n in names && IsPng(n)
  {
    if names == [] then []
    else if IsPng(names[0]) then [names[0]] + FilterPngs(names[1..])
    else FilterPngs(names[1..])
  }

  /** Filtering keeps the listing's order: it distributes over concatenation. */
  lemma {:induction false} FilterPngsAppend(a: seq<string>, b: seq<string>)
    ensures FilterPngs(a + b) == FilterPngs(a) + FilterPngs(b)
  {
    if a == [] {
      assert a + b == b;
    } else {
      assert (a + b)[0] == a[0];
      assert (a + b)[1..] == a[1..] + b;
      FilterPngsAppend(a[1..], b);
    }
  }

  /**
   The elements of s not in `seen`, each once, in order of first
   occurrence: what iterating a JavaScript `Set` built from s yields, once
   the names in `seen` are taken out.
   */
  function Unseen(s: seq<string>, seen: set<string>): (r: seq<string>)
    ensures NoDuplicates(r)
    ensures forall n :: n in r <==> n in s && n !in seen
  {
    if s == [] then []
    else if s[0] in seen then Unseen(s[1..], seen)
    else
      var rest := Unseen(s[1..], seen + {s[0]});
      assert s[0] !in rest;
      [s[0]] + rest
  }

  /** `Array.from(new Set(s))`. */
  function Dedupe(s: seq<string>): seq<string>
  {
    Unseen(s, {})
  }

  /** De-duplicating a concatenation handles the first part, then what
      the second part adds. */
  lemma {:induction false} UnseenAppend(a: seq<string>, b: seq<string>, seen: set<string>)
    ensures Unseen(a + b, seen) == Unseen(a, seen) + Unseen(b, seen + set n | n in a)
  {
    if a == [] {
      assert a + b == b;
      assert (set n | n in a) == {};
      assert seen + {} == seen;
    } else {
      assert (a + b)[0] == a[0];
      assert (a + b)[1..] == a[1..] + b;
      var seen' := if a[0] in seen then seen else seen + {a[0]};
      UnseenAppend(a[1..], b, seen');
      assert seen' + (set n | n in a[1..]) == seen + (set n | n in a);
    }
  }

  /** Names kept by both filters, merged: `getPngFileNames`. */
  function PngFileNames(baselineListing: seq<string>, candidateListing: seq<string>): (r: seq<string>)
    ensures var pb := FilterPngs(baselineListing);
      var pc := FilterPngs(candidateListing);
      && (pb == [] || pc == [] ==> r == [])
      && (pb != [] && pc != [] ==>
        && NoDuplicates(r)
        && forall n :: n in r <==> n in pb || n in pc)
  {
    var pb := FilterPngs(baselineListing);
    var pc := FilterPngs(candidateListing);
    if |pb| > 0 && |pc| > 0 then Dedupe(pb + pc) else []
  }

  /**
   With PNGs on both sides the union lists the baseline's PNGs first (in
   first-occurrence order), then the candidate's PNGs that the baseline
   lacks.
   */
  lemma BaselineNamesFirst(baselineListing: seq<string>, candidateListing: seq<string>)
    requires FilterPngs(baselineListing) != [] && FilterPngs(candidateListing) != []
    ensures var pb := FilterPngs(baselineListing);
      var pc := FilterPngs(candidateListing);
      PngFileNames(baselineListing, candidateListing)
        == Dedupe(pb) + Unseen(pc, set n | n in pb)
  {
    var pb := FilterPngs(baselineListing);
    var pc := FilterPngs(candidateListing);
    UnseenAppend(pb, pc, {});
    assert {} + (set n | n in pb) == set n | n in pb;
  }

  lemma FilterExample()
    ensures FilterPngs(["a.png", "b.txt", "c.png"]) == ["a.png", "c.png"]
    ensures FilterPngs(["c.png", "d.png"]) == ["c.png", "d.png"]
  {
    assert IsPng("a.png") && IsPng("c.png") && IsPng("d.png");
    assert !IsPng("b.txt") by { assert "b.txt"[1..][1] != ".png"[1]; }
    assert ["a.png", "b.txt", "c.png"][1..] == ["b.txt", "c.png"];
    assert ["b.txt", "c.png"][1..] == ["c.png"];
    assert ["c.png"][1..] == [];
    assert ["c.png", "d.png"][1..] == ["d.png"];
    assert ["d.png"][1..] == [];
  }

  lemma DedupeExample()
    ensures Dedupe(["a.png", "c.png", "c.png", "d.png"]) == ["a.png", "c.png", "d.png"]
  {
    var a, c, d := "a.png", "c.png", "d.png";
    assert a != c by { assert a[0] != c[0]; }
    assert d != c by { assert d[0] != c[0]; }
    assert d != a by { assert d[0] != a[0]; }
    var all := [a, c, c, d];
    assert Unseen(all[4..], {a, c, d}) == [];
    assert Unseen(all[3..], {a, c}) == [d];
    assert Unseen(all[2..], {a, c}) == [d];
    assert all[1..][1..] == all[2..] && {a} + {c} == {a, c};
    assert Unseen(all[1..], {a}) == [c, d];
    assert {} + {a} == {a};
    assert Unseen(all, {}) == [a, c, d];
  }

  /** A name on both sides appears once, where the baseline has it. */
  lemma UnionExample()
    ensures PngFileNames(["a.png", "b.txt", "c.png"], ["c.png", "d.png"]) == ["a.png", "c.png", "d.png"]
  {
    FilterExample();
    DedupeExample();
    assert ["a.png", "c.png"] + ["c.png", "d.png"] == ["a.png", "c.png", "c.png", "d.png"];
  }

  /**
   The suffix test is exact and case-sensitive: a name ending in ".png" is
   kept, and a name ending in any other four characters (".PNG", ".Png",
   ".jpg", ...) is dropped.
   */
  lemma PngSuffixIsCaseSensitive(stem: string, suffix: string)
    requires |suffix| == |PNG_SUFFIX|
    ensures IsPng(stem + PNG_SUFFIX)
    ensures IsPng(stem + suffix) <==> suffix == PNG_SUFFIX
  {
    assert (stem + PNG_SUFFIX)[|stem|..] == PNG_SUFFIX;
    assert (stem + suffix)[|stem|..] == suffix;
  }
}
