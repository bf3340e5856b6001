/**
 * What the three expansion stages of the syllable builder generate, as
 * functions of their inputs: the diphthongs made from the vowels, the
 * glides made from the vowels and diphthongs, and the consonant clusters
 * made from the consonants. The builder's methods are proved to append
 * exactly these lists; the lemmas here state what the lists are.
 */
module Expansion {
  import opened Settings
  import opened Sequences

  // ===================== Diphthongs =====================

  /** `p + y` for every `y` of `ys` other than `p` itself. */
  function PrefixedDistinct(p: string, ys: seq<string>): seq<string>
  {
    if ys == [] then []
    else
      var y := ys[|ys| - 1];
      PrefixedDistinct(p, ys[..|ys| - 1]) + (if y == p then [] else [p + y])
  }

  /** The row-major cross product, leaving out every pair of equal halves. */
  function CrossDistinct(xs: seq<string>, ys: seq<string>): seq<string>
  {
    if xs == [] then [] else CrossDistinct(xs[..|xs| - 1], ys) + PrefixedDistinct(xs[|xs| - 1], ys)
  }

  /** The diphthongs one `create_diphthongs` call appends, per mode. */
  function DiphthongsOf(mode: Diphthongs, vowels: seq<string>, disabled: seq<string>): seq<string>
  {
    match mode
    case All => Cross(vowels, vowels)
    case NoLong => CrossDistinct(vowels, vowels)
    case DisableGiven => Without(Cross(vowels, vowels), disabled)
    case OnlyGiven => []
  }

  lemma PrefixedDistinctStep(p: string, ys: seq<string>, j: nat)
    requires j < |ys|
    ensures PrefixedDistinct(p, ys[..j + 1])
         == PrefixedDistinct(p, ys[..j]) + (if ys[j] == p then [] else [p + ys[j]])
  {
    assert ys[..j + 1][..j] == ys[..j];
  }

  lemma CrossDistinctStep(xs: seq<string>, ys: seq<string>, i: nat)
    requires i < |xs|
    ensures CrossDistinct(xs[..i + 1], ys) == CrossDistinct(xs[..i], ys) + PrefixedDistinct(xs[i], ys)
  {
    assert xs[..i + 1][..i] == xs[..i];
  }

  // ---- the same products at the level of vowel pairs ----

  /** `(p, y)` for every `y` of `ys`, in order. */
  function PairRow(p: string, ys: seq<string>): (r: seq<(string, string)>)
    ensures |r| == |ys|
    ensures forall j :: 0 <= j < |ys| ==> r[j] == (p, ys[j])
  {
    if ys == [] then [] else PairRow(p, ys[..|ys| - 1]) + [(p, ys[|ys| - 1])]
  }

  /** Every ordered pair `(x, y)` of an `xs` entry and a `ys` entry, row-major. */
  function Pairs(xs: seq<string>, ys: seq<string>): (r: seq<(string, string)>)
    ensures |r| == |xs| * |ys|
  {
    if xs == [] then []
    else
      var r := Pairs(xs[..|xs| - 1], ys) + PairRow(xs[|xs| - 1], ys);
      MulSucc(|xs| - 1, |ys|);
      r
  }

  /** Each pair written as one string. */
  function Joined(ps: seq<(string, string)>): (r: seq<string>)
    ensures |r| == |ps|
    ensures forall k :: 0 <= k < |ps| ==> r[k] == ps[k].0 + ps[k].1
  {
    if ps == [] then [] else Joined(ps[..|ps| - 1]) + [ps[|ps| - 1].0 + ps[|ps| - 1].1]
  }

  /** The pairs whose halves differ, in their original order. */
  function DropSame(ps: seq<(string, string)>): (r: seq<(string, string)>)
    ensures forall q :: q in r <==> q in ps && q.0 != q.1
  {
    if ps == [] then []
    else
      var q := ps[|ps| - 1];
      assert ps == ps[..|ps| - 1] + [q];
      DropSame(ps[..|ps| - 1]) + (if q.0 == q.1 then [] else [q])
  }

  lemma JoinedAppend(a: seq<(string, string)>, b: seq<(string, string)>)
    ensures Joined(a + b) == Joined(a) + Joined(b)
  {
    assert forall k :: 0 <= k < |a + b| ==> Joined(a + b)[k] == (Joined(a) + Joined(b))[k];
  }

  lemma DropSameSnoc(ps: seq<(string, string)>, q: (string, string))
    ensures DropSame(ps + [q]) == DropSame(ps) + (if q.0 == q.1 then [] else [q])
  {
    assert (ps + [q])[..|ps|] == ps;
  }

  lemma {:induction false} DropSameAppend(a: seq<(string, string)>, b: seq<(string, string)>)
    ensures DropSame(a + b) == DropSame(a) + DropSame(b)
    decreases |b|
  {
    if b == [] {
      assert a + b == a;
    } else {
      var init, q := b[..|b| - 1], b[|b| - 1];
      assert b == init + [q];
      assert a + b == (a + init) + [q];
      DropSameSnoc(a + init, q);
      DropSameSnoc(init, q);
      DropSameAppend(a, init);
      Regroup(DropSame(a), DropSame(init), if q.0 == q.1 then [] else [q], DropSame(a + init), DropSame(b), DropSame(a + b));
    }
  }

  lemma {:induction false} PrefixedDistinctIsJoinedRow(p: string, ys: seq<string>)
    ensures PrefixedDistinct(p, ys) == Joined(DropSame(PairRow(p, ys)))
  {
    if ys != [] {
      var init, y := ys[..|ys| - 1], ys[|ys| - 1];
      PrefixedDistinctIsJoinedRow(p, init);
      assert PairRow(p, ys) == PairRow(p, init) + [(p, y)];
      DropSameAppend(PairRow(p, init), [(p, y)]);
      assert DropSame([(p, y)]) == if p == y then [] else [(p, y)] by {
        assert [(p, y)][..0] == [];
      }
      JoinedAppend(DropSame(PairRow(p, init)), DropSame([(p, y)]));
    }
  }

  /** The NoLong diphthongs are the All diphthongs with exactly the pairs of
      equal vowels left out, in the same order: both are the joined vowel
      pairs, once unfiltered and once without the equal ones. */
  lemma {:induction false} NoLongIsAllWithoutLongVowels(xs: seq<string>, ys: seq<string>)
    ensures Cross(xs, ys) == Joined(Pairs(xs, ys))
    ensures CrossDistinct(xs, ys) == Joined(DropSame(Pairs(xs, ys)))
  {
    if xs != [] {
      var init, x := xs[..|xs| - 1], xs[|xs| - 1];
      NoLongIsAllWithoutLongVowels(init, ys);
      PrefixedDistinctIsJoinedRow(x, ys);
      assert Prefixed(x, ys) == Joined(PairRow(x, ys));
      JoinedAppend(Pairs(init, ys), PairRow(x, ys));
      DropSameAppend(Pairs(init, ys), PairRow(x, ys));
      JoinedAppend(DropSame(Pairs(init, ys)), DropSame(PairRow(x, ys)));
    }
  }

  /** "DisableGiven: All without supplied ones": the DisableGiven diphthongs
      are the All diphthongs, in their order, with exactly the supplied
      strings left out. */
  lemma DisableGivenIsAllWithoutGiven(vowels: seq<string>, disabled: seq<string>, s: string)
    ensures DiphthongsOf(Diphthongs.DisableGiven, vowels, disabled) == Without(DiphthongsOf(Diphthongs.All, vowels, disabled), disabled)
    ensures s in DiphthongsOf(Diphthongs.DisableGiven, vowels, disabled) <==>
              s in DiphthongsOf(Diphthongs.All, vowels, disabled) && s !in disabled
  {
    WithoutMembers(Cross(vowels, vowels), disabled, s);
  }

  /** No two entries of `s` are equal. */
  ghost predicate Distinct(s: seq<string>)
  {
    forall i, j :: 0 <= i < j < |s| ==> s[i] != s[j]
  }

  lemma {:induction false} PrefixedDistinctLength(p: string, ys: seq<string>)
    ensures |PrefixedDistinct(p, ys)| == |ys| - multiset(ys)[p]
  {
    if ys != [] {
      var init, y := ys[..|ys| - 1], ys[|ys| - 1];
      assert ys == init + [y];
      PrefixedDistinctLength(p, init);
    }
  }

  lemma {:induction false} DistinctOccursOnce(ys: seq<string>, p: string)
    requires Distinct(ys) && p in ys
    ensures multiset(ys)[p] == 1
  {
    var init, y := ys[..|ys| - 1], ys[|ys| - 1];
    assert ys == init + [y];
    if p == y {
      assert forall i :: 0 <= i < |init| ==> init[i] == ys[i] && ys[i] != ys[|ys| - 1];
      assert p !in init;
    } else {
      DistinctOccursOnce(init, p);
    }
  }

  lemma {:induction false} CrossDistinctLength(xs: seq<string>, ys: seq<string>)
    requires Distinct(ys)
    requires forall x :: x in xs ==> x in ys
    ensures |CrossDistinct(xs, ys)| == |xs| * |ys| - |xs|
  {
    if xs != [] {
      var init, x := xs[..|xs| - 1], xs[|xs| - 1];
      assert xs == init + [x];
      assert forall z :: z in init ==> z in xs;
      CrossDistinctLength(init, ys);
      PrefixedDistinctLength(x, ys);
      assert x in ys;
      DistinctOccursOnce(ys, x);
      assert |CrossDistinct(xs, ys)| == |CrossDistinct(init, ys)| + |PrefixedDistinct(x, ys)|;
      assert |CrossDistinct(xs, ys)| == (|init| * |ys| - |init|) + (|ys| - 1);
      MulSucc(|init|, |ys|);
    }
  }

  /** For `n` distinct vowels, NoLong yields `n * n - n` diphthongs and All `n * n`. */
  lemma DiphthongCounts(vowels: seq<string>)
    requires Distinct(vowels)
    ensures |DiphthongsOf(Diphthongs.All, vowels, [])| == |vowels| * |vowels|
    ensures |DiphthongsOf(NoLong, vowels, [])| == |vowels| * |vowels| - |vowels|
  {
    CrossDistinctLength(vowels, vowels);
  }

  // ===================== Glides =====================

  /** `"y" + s` then `"w" + s`, for every `s` of `ss` in order. */
  function BothPrefixed(ss: seq<string>): (r: seq<string>)
    ensures |r| == 2 * |ss|
    ensures forall k :: 0 <= k < |ss| ==> r[2 * k] == "y" + ss[k] && r[2 * k + 1] == "w" + ss[k]
  {
    if ss == [] then []
    else
      var s := ss[|ss| - 1];
      BothPrefixed(ss[..|ss| - 1]) + ["y" + s, "w" + s]
  }

  /** The glides one `create_glides` call appends: those of every vowel, then
      those of every diphthong present when the call starts. */
  function GlidesOf(mode: Glides, vowels: seq<string>, diphthongs: seq<string>): seq<string>
  {
    match mode
    case All => BothPrefixed(vowels) + BothPrefixed(diphthongs)
    case AllOnlyU => Prefixed("w", vowels) + Prefixed("w", diphthongs)
    case AllOnlyY => Prefixed("y", vowels) + Prefixed("y", diphthongs)
  }

  lemma BothPrefixedStep(ss: seq<string>, i: nat)
    requires i < |ss|
    ensures BothPrefixed(ss[..i + 1]) == BothPrefixed(ss[..i]) + ["y" + ss[i], "w" + ss[i]]
  {
    assert ss[..i + 1][..i] == ss[..i];
  }

  /** One glide per vowel and per diphthong in the one-prefix modes, two in All;
      every AllOnlyU glide is a "w" glide and every AllOnlyY glide a "y" glide. */
  lemma GlideCounts(vowels: seq<string>, diphthongs: seq<string>)
    ensures |GlidesOf(Glides.All, vowels, diphthongs)| == 2 * (|vowels| + |diphthongs|)
    ensures |GlidesOf(AllOnlyU, vowels, diphthongs)| == |vowels| + |diphthongs|
    ensures |GlidesOf(AllOnlyY, vowels, diphthongs)| == |vowels| + |diphthongs|
    ensures forall k :: 0 <= k < |vowels| + |diphthongs| ==>
              GlidesOf(AllOnlyU, vowels, diphthongs)[k] == "w" + (vowels + diphthongs)[k] &&
              GlidesOf(AllOnlyY, vowels, diphthongs)[k] == "y" + (vowels + diphthongs)[k]
  {
  }

  /** AllOnlyY and AllOnlyU are the two halves of All: the All glides
      alternate between the `k`-th "y" glide and the `k`-th "w" glide. */
  lemma GlideHalves(vowels: seq<string>, diphthongs: seq<string>, k: nat)
    requires k < |vowels| + |diphthongs|
    ensures GlidesOf(Glides.All, vowels, diphthongs)[2 * k] == GlidesOf(AllOnlyY, vowels, diphthongs)[k]
    ensures GlidesOf(Glides.All, vowels, diphthongs)[2 * k + 1] == GlidesOf(AllOnlyU, vowels, diphthongs)[k]
  {
    if k >= |vowels| {
      var k' := k - |vowels|;
      assert 2 * k == 2 * |vowels| + 2 * k';
    }
  }

  lemma {:induction false} BothPrefixedPermutation(ss: seq<string>)
    ensures multiset(BothPrefixed(ss)) == multiset(Prefixed("y", ss)) + multiset(Prefixed("w", ss))
  {
    if ss != [] {
      var init, s := ss[..|ss| - 1], ss[|ss| - 1];
      BothPrefixedPermutation(init);
      assert BothPrefixed(ss) == BothPrefixed(init) + ["y" + s, "w" + s];
      assert Prefixed("y", ss) == Prefixed("y", init) + ["y" + s];
      assert Prefixed("w", ss) == Prefixed("w", init) + ["w" + s];
    }
  }

  /** The All glides are a permutation of the AllOnlyY glides followed by the AllOnlyU glides. */
  lemma GlidesAllIsPermutationOfHalves(vowels: seq<string>, diphthongs: seq<string>)
    ensures multiset(GlidesOf(Glides.All, vowels, diphthongs))
         == multiset(GlidesOf(AllOnlyY, vowels, diphthongs) + GlidesOf(AllOnlyU, vowels, diphthongs))
  {
    BothPrefixedPermutation(vowels);
    BothPrefixedPermutation(diphthongs);
  }

  // ===================== Consonant clusters =====================

  /** For every `c` of `ds` in order: `p + c`, followed by everything that
      extends `p + c` by up to `d - 1` further consonants of `cs`, in the same
      nesting. This is the body of one iteration of the outermost loop of
      `create_consonant_cluster`, with `d` the number of inner loops. */
  function Grow(p: string, ds: seq<string>, cs: seq<string>, d: nat): seq<string>
    decreases d, |ds|
  {
    if d == 0 || ds == [] then []
    else
      var c := ds[|ds| - 1];
      Grow(p, ds[..|ds| - 1], cs, d) + [p + c] + Grow(p + c, cs, cs, d - 1)
  }

  /** `Grow(x, cs, cs, d)` for every first consonant `x` of `xs`, in order. */
  function Outer(xs: seq<string>, cs: seq<string>, d: nat): seq<string>
  {
    if xs == [] then [] else Outer(xs[..|xs| - 1], cs, d) + Grow(xs[|xs| - 1], cs, cs, d)
  }

  /** The clusters of 2 up to `k` consonants of `cs`, in generation order. */
  function Clusters(cs: seq<string>, k: nat): seq<string>
  {
    if k == 0 then [] else Outer(cs, cs, k - 1)
  }

  lemma GrowStep(p: string, cs: seq<string>, j: nat, d: nat)
    requires j < |cs| && d >= 1
    ensures Grow(p, cs[..j + 1], cs, d) == Grow(p, cs[..j], cs, d) + [p + cs[j]] + Grow(p + cs[j], cs, cs, d - 1)
  {
    assert cs[..j + 1][..j] == cs[..j];
  }

  /** With no further loop inside, an iteration pushes one cluster. */
  lemma GrowStepLast(p: string, cs: seq<string>, j: nat)
    requires j < |cs|
    ensures Grow(p, cs[..j + 1], cs, 1) == Grow(p, cs[..j], cs, 1) + [p + cs[j]]
  {
    GrowStep(p, cs, j, 1);
    assert Grow(p + cs[j], cs, cs, 0) == [];
  }

  lemma OuterStep(xs: seq<string>, cs: seq<string>, i: nat, d: nat)
    requires i < |xs|
    ensures Outer(xs[..i + 1], cs, d) == Outer(xs[..i], cs, d) + Grow(xs[i], cs, cs, d)
  {
    assert xs[..i + 1][..i] == xs[..i];
  }

  /** The concatenation of the strings of `w`. */
  function Flatten(w: seq<string>): string
  {
    if w == [] then "" else w[0] + Flatten(w[1..])
  }

  /** Every entry of `w` is one of `cs`. */
  ghost predicate Over(w: seq<string>, cs: seq<string>)
  {
    forall i :: 0 <= i < |w| ==> w[i] in cs
  }

  lemma FlattenCons(c: string, w: seq<string>)
    ensures Flatten([c] + w) == c + Flatten(w)
  {
    assert ([c] + w)[1..] == w;
  }

  /** `w` is a word of `lo` to `hi` consonants, the first one from `first`
      and the others from `cs`. */
  ghost predicate Word(w: seq<string>, first: seq<string>, cs: seq<string>, lo: nat, hi: nat)
  {
    0 < |w| && lo <= |w| <= hi && w[0] in first && Over(w[1..], cs)
  }

  lemma WordCons(c: string, v: seq<string>, first: seq<string>, cs: seq<string>, lo: nat, hi: nat)
    requires c in first && Word(v, cs, cs, lo, hi)
    ensures Word([c] + v, first, cs, lo + 1, hi + 1)
    ensures Flatten([c] + v) == c + Flatten(v)
  {
    var w := [c] + v;
    assert w[1..] == v;
    assert forall i :: 0 < i < |v| ==> v[i] == v[1..][i - 1];
    FlattenCons(c, v);
  }

  lemma WordTail(w: seq<string>, first: seq<string>, cs: seq<string>, lo: nat, hi: nat)
    requires Word(w, first, cs, lo, hi) && |w| >= 2
    ensures Word(w[1..], cs, cs, 1, hi - 1)
    ensures Flatten(w) == w[0] + Flatten(w[1..])
  {
    var v := w[1..];
    assert forall i :: 0 <= i < |v[1..]| ==> v[1..][i] == v[i + 1];
  }

  lemma WordIsOver(w: seq<string>, cs: seq<string>, lo: nat, hi: nat)
    requires 0 < |w|
    ensures Word(w, cs, cs, lo, hi) <==> lo <= |w| <= hi && Over(w, cs)
  {
    assert forall i :: 0 < i < |w| ==> w[i] == w[1..][i - 1];
  }

  lemma GrowUnfold(p: string, ds: seq<string>, cs: seq<string>, d: nat)
    requires d >= 1 && ds != []
    ensures Grow(p, ds, cs, d)
         == Grow(p, ds[..|ds| - 1], cs, d) + [p + ds[|ds| - 1]] + Grow(p + ds[|ds| - 1], cs, cs, d - 1)
  {
  }

  lemma WordSingle(c: string, first: seq<string>, cs: seq<string>, d: nat)
    requires c in first && d >= 1
    ensures Word([c], first, cs, 1, d) && Flatten([c]) == c
  {
    FlattenCons(c, []);
    assert [c] == [c] + [];
  }

  lemma WordWiden(w: seq<string>, init: seq<string>, c: string, cs: seq<string>, d: nat)
    requires Word(w, init, cs, 1, d)
    ensures Word(w, init + [c], cs, 1, d)
  {
  }

  /** Everything `Grow` emits is `p` followed by 1 to `d` consonants, the first one from `ds`. */
  lemma {:induction false} GrowSound(p: string, ds: seq<string>, cs: seq<string>, d: nat, x: string)
    requires x in Grow(p, ds, cs, d)
    ensures exists w :: Word(w, ds, cs, 1, d) && x == p + Flatten(w)
    decreases d, |ds|
  {
    var init, c := ds[..|ds| - 1], ds[|ds| - 1];
    assert ds == init + [c];
    GrowUnfold(p, ds, cs, d);
    if x in Grow(p, init, cs, d) {
      GrowSound(p, init, cs, d, x);
      var w :| Word(w, init, cs, 1, d) && x == p + Flatten(w);
      WordWiden(w, init, c, cs, d);
    } else if x == p + c {
      WordSingle(c, ds, cs, d);
      assert Word([c], ds, cs, 1, d) && x == p + Flatten([c]);
    } else {
      GrowSound(p + c, cs, cs, d - 1, x);
      var v :| Word(v, cs, cs, 1, d - 1) && x == p + c + Flatten(v);
      WordCons(c, v, ds, cs, 1, d - 1);
      Regroup(p, c, Flatten(v), p + c, Flatten([c] + v), x);
    }
  }

  /** Everything of that shape is emitted by `Grow`. */
  lemma {:induction false} GrowComplete(p: string, ds: seq<string>, cs: seq<string>, d: nat, w: seq<string>)
    requires Word(w, ds, cs, 1, d)
    ensures p + Flatten(w) in Grow(p, ds, cs, d)
    decreases d, |ds|
  {
    var init, c := ds[..|ds| - 1], ds[|ds| - 1];
    assert ds == init + [c];
    GrowUnfold(p, ds, cs, d);
    if w[0] != c {
      assert Word(w, init, cs, 1, d);
      GrowComplete(p, init, cs, d, w);
    } else if |w| == 1 {
      assert w == [c] + [];
      FlattenCons(c, []);
      assert Flatten(w) == c;
    } else {
      WordTail(w, ds, cs, 1, d);
      GrowComplete(p + c, cs, cs, d - 1, w[1..]);
      Regroup(p, c, Flatten(w[1..]), p + c, Flatten(w), (p + c) + Flatten(w[1..]));
    }
  }

  lemma {:induction false} OuterSound(xs: seq<string>, cs: seq<string>, d: nat, x: string)
    requires x in Outer(xs, cs, d)
    ensures exists w :: Word(w, xs, cs, 2, d + 1) && x == Flatten(w)
  {
    var init, c := xs[..|xs| - 1], xs[|xs| - 1];
    assert xs == init + [c];
    if x in Outer(init, cs, d) {
      OuterSound(init, cs, d, x);
      var w :| Word(w, init, cs, 2, d + 1) && x == Flatten(w);
      assert Word(w, xs, cs, 2, d + 1);
    } else {
      GrowSound(c, cs, cs, d, x);
      var v :| Word(v, cs, cs, 1, d) && x == c + Flatten(v);
      WordCons(c, v, xs, cs, 1, d);
      assert x == Flatten([c] + v);
    }
  }

  lemma {:induction false} OuterComplete(xs: seq<string>, cs: seq<string>, d: nat, w: seq<string>)
    requires Word(w, xs, cs, 2, d + 1)
    ensures Flatten(w) in Outer(xs, cs, d)
  {
    var init, c := xs[..|xs| - 1], xs[|xs| - 1];
    assert xs == init + [c];
    if w[0] != c {
      assert Word(w, init, cs, 2, d + 1);
      OuterComplete(init, cs, d, w);
    } else {
      WordTail(w, xs, cs, 2, d + 1);
      GrowComplete(c, cs, cs, d, w[1..]);
    }
  }

  /** "Max cluster length": the generated clusters are exactly the
      concatenations of at least 2 and at most `k` consonants, and every
      admissible concatenation is generated. No cluster is made of fewer than
      two consonants, but one can spell the same string as a consonant
      symbol of several characters ("k" + "s" and "ks"). */
  lemma ClustersSpelled(cs: seq<string>, k: nat, x: string)
    ensures x in Clusters(cs, k) <==> exists w :: 2 <= |w| <= k && Over(w, cs) && x == Flatten(w)
  {
    if x in Clusters(cs, k) {
      OuterSound(cs, cs, k - 1, x);
      var w :| Word(w, cs, cs, 2, k) && x == Flatten(w);
      WordIsOver(w, cs, 2, k);
    }
    if exists w :: 2 <= |w| <= k && Over(w, cs) && x == Flatten(w) {
      var w :| 2 <= |w| <= k && Over(w, cs) && x == Flatten(w);
      WordIsOver(w, cs, 2, k);
      OuterComplete(cs, cs, k - 1, w);
    }
  }

  // ---- cluster counts ----

  /** How many strings `Grow(p, cs, cs, d)` emits when `|cs| == m`. */
  function GrowCount(m: nat, d: nat): nat
  {
    if d == 0 then 0 else m * (1 + GrowCount(m, d - 1))
  }

  lemma {:induction false} GrowLength(p: string, ds: seq<string>, cs: seq<string>, d: nat)
    ensures |Grow(p, ds, cs, d)| == if d == 0 then 0 else |ds| * (1 + GrowCount(|cs|, d - 1))
    decreases d, |ds|
  {
    if d != 0 && ds != [] {
      var init, c := ds[..|ds| - 1], ds[|ds| - 1];
      GrowLength(p, init, cs, d);
      GrowLength(p + c, cs, cs, d - 1);
      var g := 1 + GrowCount(|cs|, d - 1);
      assert |Grow(p + c, cs, cs, d - 1)| == GrowCount(|cs|, d - 1);
      assert |Grow(p, ds, cs, d)| == |init| * g + g;
      MulSucc(|init|, g);
    }
  }

  lemma {:induction false} OuterLength(xs: seq<string>, cs: seq<string>, d: nat)
    ensures |Outer(xs, cs, d)| == |xs| * GrowCount(|cs|, d)
  {
    if xs != [] {
      var init := xs[..|xs| - 1];
      OuterLength(init, cs, d);
      GrowLength(xs[|xs| - 1], cs, cs, d);
      assert |Outer(xs, cs, d)| == |init| * GrowCount(|cs|, d) + GrowCount(|cs|, d);
      MulSucc(|init|, GrowCount(|cs|, d));
    }
  }

  lemma GrowCounts(m: nat)
    ensures m * GrowCount(m, 1) == m * m
    ensures m * GrowCount(m, 2) == m * m + m * m * m
    ensures m * GrowCount(m, 3) == m * m + m * m * m + m * m * m * m
  {
    var g1, g2, g3 := GrowCount(m, 1), GrowCount(m, 2), GrowCount(m, 3);
    assert GrowCount(m, 0) == 0;
    assert g1 == m * 1 == m;
    assert g2 == m * (1 + g1) == m + m * m;
    assert g3 == m * (1 + g2) == m + m * g2;
    assert m * g2 == m * m + m * (m * m) == m * m + m * m * m;
    assert m * g3 == m * m + m * (m * g2);
    assert m * (m * g2) == m * (m * m + m * m * m) == m * m * m + m * m * m * m;
  }

  /** With `m` consonants, CC generates `m^2` clusters, CCC `m^2 + m^3`
      and CCCC `m^2 + m^3 + m^4`. */
  lemma ClusterCounts(cs: seq<string>)
    ensures |Clusters(cs, 2)| == |cs| * |cs|
    ensures |Clusters(cs, 3)| == |cs| * |cs| + |cs| * |cs| * |cs|
    ensures |Clusters(cs, 4)| == |cs| * |cs| + |cs| * |cs| * |cs| + |cs| * |cs| * |cs| * |cs|
  {
    OuterLength(cs, cs, 1);
    OuterLength(cs, cs, 2);
    OuterLength(cs, cs, 3);
    GrowCounts(|cs|);
  }

  // ---- cluster order ----

  /** Every `x` of `xs`, each followed by its extensions: `x + c` for every
      `c` of `cs`, each itself followed by its extensions, down to depth `d`. */
  function Nested(xs: seq<string>, cs: seq<string>, d: nat): seq<string>
    decreases d, |xs|
  {
    if xs == [] then []
    else
      var x := xs[|xs| - 1];
      Nested(xs[..|xs| - 1], cs, d) + [x] + (if d == 0 then [] else Nested(Prefixed(x, cs), cs, d - 1))
  }

  lemma NestedSnoc(s: seq<string>, x: string, cs: seq<string>, d: nat)
    ensures Nested(s + [x], cs, d) == Nested(s, cs, d) + ([x] + (if d == 0 then [] else Nested(Prefixed(x, cs), cs, d - 1)))
  {
    assert (s + [x])[..|s|] == s;
  }

  lemma {:induction false} NestedAppend(a: seq<string>, b: seq<string>, cs: seq<string>, d: nat)
    ensures Nested(a + b, cs, d) == Nested(a, cs, d) + Nested(b, cs, d)
    decreases |b|
  {
    if b == [] {
      assert a + b == a;
    } else {
      var init, x := b[..|b| - 1], b[|b| - 1];
      assert b == init + [x];
      assert a + b == (a + init) + [x];
      NestedSnoc(a + init, x, cs, d);
      NestedSnoc(init, x, cs, d);
      NestedAppend(a, init, cs, d);
      Regroup(Nested(a, cs, d), Nested(init, cs, d), [x] + (if d == 0 then [] else Nested(Prefixed(x, cs), cs, d - 1)),
              Nested(a + init, cs, d), Nested(b, cs, d), Nested(a + b, cs, d));
    }
  }

  lemma NestedSingleton(x: string, cs: seq<string>, d: nat)
    ensures Nested([x], cs, d) == [x] + (if d == 0 then [] else Nested(Prefixed(x, cs), cs, d - 1))
  {
    assert [x][..0] == [];
  }

  lemma {:induction false} GrowIsNested(p: string, ds: seq<string>, cs: seq<string>, d: nat)
    requires d >= 1
    ensures Grow(p, ds, cs, d) == Nested(Prefixed(p, ds), cs, d - 1)
    decreases d, |ds|
  {
    if ds != [] {
      var init, c := ds[..|ds| - 1], ds[|ds| - 1];
      GrowUnfold(p, ds, cs, d);
      GrowIsNested(p, init, cs, d);
      var rest := if d == 1 then [] else Nested(Prefixed(p + c, cs), cs, d - 2);
      if d > 1 {
        GrowIsNested(p + c, cs, cs, d - 1);
      }
      assert Grow(p + c, cs, cs, d - 1) == rest;
      assert Prefixed(p, ds) == Prefixed(p, init) + [p + c];
      NestedAppend(Prefixed(p, init), [p + c], cs, d - 1);
      NestedSingleton(p + c, cs, d - 1);
    }
  }

  lemma {:induction false} OuterIsNested(xs: seq<string>, cs: seq<string>, d: nat)
    requires d >= 1
    ensures Outer(xs, cs, d) == Nested(Cross(xs, cs), cs, d - 1)
  {
    if xs != [] {
      var init, x := xs[..|xs| - 1], xs[|xs| - 1];
      OuterIsNested(init, cs, d);
      GrowIsNested(x, cs, cs, d);
      NestedAppend(Cross(init, cs), Prefixed(x, cs), cs, d - 1);
    }
  }

  /** Generation order: the two-consonant clusters `c1 + c2` in row-major
      order, each immediately followed by its extensions. For CC that is
      the cross product alone; for CCC each `c1c2` is followed by its `m`
      extensions `c1c2c3`; for CCCC each `c1c2c3` is in turn followed by
      its `m` extensions `c1c2c3c4`. */
  lemma ClustersOrder(cs: seq<string>, k: nat)
    requires k >= 2
    ensures Clusters(cs, k) == Nested(Cross(cs, cs), cs, k - 2)
    ensures Clusters(cs, 2) == Cross(cs, cs)
  {
    assert Clusters(cs, k) == Outer(cs, cs, k - 1);
    OuterIsNested(cs, cs, k - 1);
    assert Clusters(cs, 2) == Outer(cs, cs, 1);
    OuterIsNested(cs, cs, 1);
    NestedZero(Cross(cs, cs), cs);
  }

  lemma {:induction false} NestedZero(xs: seq<string>, cs: seq<string>)
    ensures Nested(xs, cs, 0) == xs
  {
    if xs != [] {
      NestedZero(xs[..|xs| - 1], cs);
      assert xs == xs[..|xs| - 1] + [xs[|xs| - 1]];
    }
  }
}
