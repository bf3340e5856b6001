/**
 * What `build` assembles from the nucleus list, the onset (init) clusters
 * and the coda clusters, as functions of those lists and the list of
 * disabled combinations, and what can be proved about it.
 */
module Assembly {
  import opened Sequences

  /** The syllables emitted for one nucleus `n`, in emission order: the bare
      nucleus, then onset + nucleus for every onset, then nucleus + coda for
      every coda, then onset + nucleus + coda for every onset and, within it,
      every coda. Only the combinations are checked against `disabled`. */
  function Block(n: string, inits: seq<string>, codas: seq<string>, disabled: seq<string>): seq<string>
  {
    [n]
      + Without(Suffixed(inits, n), disabled)
      + Without(Prefixed(n, codas), disabled)
      + Without(Cross(Suffixed(inits, n), codas), disabled)
  }

  /** The whole inventory: the blocks of the nuclei, in nucleus order. */
  function Inventory(nuclei: seq<string>, inits: seq<string>, codas: seq<string>, disabled: seq<string>): seq<string>
  {
    if nuclei == [] then []
    else Inventory(nuclei[..|nuclei| - 1], inits, codas, disabled) + Block(nuclei[|nuclei| - 1], inits, codas, disabled)
  }

  lemma InventoryStep(nuclei: seq<string>, inits: seq<string>, codas: seq<string>, disabled: seq<string>, a: nat)
    requires a < |nuclei|
    ensures Inventory(nuclei[..a + 1], inits, codas, disabled)
         == Inventory(nuclei[..a], inits, codas, disabled) + Block(nuclei[a], inits, codas, disabled)
  {
    assert nuclei[..a + 1][..a] == nuclei[..a];
  }

  lemma InventorySnoc(nuclei: seq<string>, n: string, inits: seq<string>, codas: seq<string>, disabled: seq<string>)
    ensures Inventory(nuclei + [n], inits, codas, disabled)
         == Inventory(nuclei, inits, codas, disabled) + Block(n, inits, codas, disabled)
  {
    assert (nuclei + [n])[..|nuclei|] == nuclei;
  }

  /** Every block starts with its bare nucleus, which is never filtered,
      and nothing after it is a disabled combination. */
  lemma BlockShape(n: string, inits: seq<string>, codas: seq<string>, disabled: seq<string>)
    ensures |Block(n, inits, codas, disabled)| >= 1
    ensures Block(n, inits, codas, disabled)[0] == n
    ensures forall s :: s in Block(n, inits, codas, disabled)[1..] ==> s !in disabled
  {
    var onsets := Without(Suffixed(inits, n), disabled);
    var codaForms := Without(Prefixed(n, codas), disabled);
    var triples := Without(Cross(Suffixed(inits, n), codas), disabled);
    assert Block(n, inits, codas, disabled)[1..] == onsets + codaForms + triples;
    forall s | s in Block(n, inits, codas, disabled)[1..]
      ensures s !in disabled
    {
      WithoutMembers(Suffixed(inits, n), disabled, s);
      WithoutMembers(Prefixed(n, codas), disabled, s);
      WithoutMembers(Cross(Suffixed(inits, n), codas), disabled, s);
    }
  }

  /** Without disabled combinations a block has all `(1 + |inits|) * (1 + |codas|)` forms. */
  lemma BlockLength(n: string, inits: seq<string>, codas: seq<string>)
    ensures |Block(n, inits, codas, [])| == (1 + |inits|) * (1 + |codas|)
  {
    WithoutNothing(Suffixed(inits, n));
    WithoutNothing(Prefixed(n, codas));
    WithoutNothing(Cross(Suffixed(inits, n), codas));
    assert |Block(n, inits, codas, [])| == 1 + |inits| + |codas| + |inits| * |codas|;
  }

  /** Without disabled combinations `build` emits `|N| * (1 + |I|) * (1 + |C|)`
      strings whatever the lists hold: nothing is deduplicated. */
  lemma {:induction false} InventoryLength(nuclei: seq<string>, inits: seq<string>, codas: seq<string>)
    ensures |Inventory(nuclei, inits, codas, [])| == |nuclei| * ((1 + |inits|) * (1 + |codas|))
  {
    if nuclei != [] {
      var init := nuclei[..|nuclei| - 1];
      InventoryLength(init, inits, codas);
      BlockLength(nuclei[|nuclei| - 1], inits, codas);
      MulSucc(|init|, (1 + |inits|) * (1 + |codas|));
    }
  }

  /** The inventory of a concatenation of nucleus lists is the two
      inventories laid end to end: `build` handles every nucleus on its own. */
  lemma {:induction false} InventoryAppend(xs: seq<string>, ys: seq<string>, inits: seq<string>, codas: seq<string>, disabled: seq<string>)
    ensures Inventory(xs + ys, inits, codas, disabled)
         == Inventory(xs, inits, codas, disabled) + Inventory(ys, inits, codas, disabled)
    decreases |ys|
  {
    if ys == [] {
      assert xs + ys == xs;
    } else {
      var init, last := ys[..|ys| - 1], ys[|ys| - 1];
      assert ys == init + [last];
      assert xs + ys == (xs + init) + [last];
      InventoryAppend(xs, init, inits, codas, disabled);
      InventorySnoc(xs + init, last, inits, codas, disabled);
      InventorySnoc(init, last, inits, codas, disabled);
      Regroup(Inventory(xs, inits, codas, disabled), Inventory(init, inits, codas, disabled), Block(last, inits, codas, disabled),
              Inventory(xs + init, inits, codas, disabled), Inventory(ys, inits, codas, disabled), Inventory(xs + ys, inits, codas, disabled));
    }
  }

  /** The block of nucleus `a` sits between the blocks of the nuclei before
      it and those after it; without disabled combinations it starts at
      offset `a * (1 + |inits|) * (1 + |codas|)`. */
  lemma InventorySplit(nuclei: seq<string>, inits: seq<string>, codas: seq<string>, disabled: seq<string>, a: nat)
    requires a < |nuclei|
    ensures Inventory(nuclei, inits, codas, disabled)
         == Inventory(nuclei[..a], inits, codas, disabled)
            + Block(nuclei[a], inits, codas, disabled)
            + Inventory(nuclei[a + 1..], inits, codas, disabled)
    ensures |Inventory(nuclei[..a], inits, codas, [])| == a * ((1 + |inits|) * (1 + |codas|))
  {
    assert nuclei == nuclei[..a + 1] + nuclei[a + 1..];
    InventoryAppend(nuclei[..a + 1], nuclei[a + 1..], inits, codas, disabled);
    InventoryStep(nuclei, inits, codas, disabled, a);
    InventoryLength(nuclei[..a], inits, codas);
  }

  /** `s` is one of the combinations `build` forms with the nucleus `n`. */
  ghost predicate Combination(s: string, n: string, inits: seq<string>, codas: seq<string>)
  {
    || (exists i :: i in inits && s == i + n)
    || (exists c :: c in codas && s == n + c)
    || (exists i, c :: i in inits && c in codas && s == i + n + c)
  }

  lemma TripleMembers(n: string, inits: seq<string>, codas: seq<string>, s: string)
    ensures s in Cross(Suffixed(inits, n), codas) <==> exists i, c :: i in inits && c in codas && s == i + n + c
  {
    CrossMembers(Suffixed(inits, n), codas, s);
    if s in Cross(Suffixed(inits, n), codas) {
      var x, c :| x in Suffixed(inits, n) && c in codas && s == x + c;
      SuffixedMembers(inits, n, x);
      var i :| i in inits && x == i + n;
      assert s == i + n + c;
    }
    if exists i, c :: i in inits && c in codas && s == i + n + c {
      var i, c :| i in inits && c in codas && s == i + n + c;
      SuffixedMembers(inits, n, i + n);
      assert i + n in Suffixed(inits, n);
    }
  }

  lemma OnsetFormMembers(n: string, inits: seq<string>, disabled: seq<string>, s: string)
    ensures s in Without(Suffixed(inits, n), disabled) <==> s !in disabled && exists i :: i in inits && s == i + n
  {
    SuffixedMembers(inits, n, s);
    WithoutMembers(Suffixed(inits, n), disabled, s);
  }

  lemma CodaFormMembers(n: string, codas: seq<string>, disabled: seq<string>, s: string)
    ensures s in Without(Prefixed(n, codas), disabled) <==> s !in disabled && exists c :: c in codas && s == n + c
  {
    PrefixedMembers(n, codas, s);
    WithoutMembers(Prefixed(n, codas), disabled, s);
  }

  lemma TripleFormMembers(n: string, inits: seq<string>, codas: seq<string>, disabled: seq<string>, s: string)
    ensures s in Without(Cross(Suffixed(inits, n), codas), disabled) <==>
              s !in disabled && exists i, c :: i in inits && c in codas && s == i + n + c
  {
    TripleMembers(n, inits, codas, s);
    WithoutMembers(Cross(Suffixed(inits, n), codas), disabled, s);
  }

  /** A block holds its nucleus and exactly the combinations with that
      nucleus that are not disabled. */
  lemma BlockMembers(n: string, inits: seq<string>, codas: seq<string>, disabled: seq<string>, s: string)
    ensures s in Block(n, inits, codas, disabled) <==> s == n || (s !in disabled && Combination(s, n, inits, codas))
  {
    OnsetFormMembers(n, inits, disabled, s);
    CodaFormMembers(n, codas, disabled, s);
    TripleFormMembers(n, inits, codas, disabled, s);
  }

  /** Soundness and completeness of `build`: a string is in the inventory
      if and only if it is a nucleus, or a combination of a nucleus with an
      onset, a coda or both that is not a disabled combination. */
  lemma {:induction false} InventoryMembers(nuclei: seq<string>, inits: seq<string>, codas: seq<string>, disabled: seq<string>, s: string)
    ensures s in Inventory(nuclei, inits, codas, disabled) <==>
              s in nuclei || (s !in disabled && exists n :: n in nuclei && Combination(s, n, inits, codas))
  {
    if nuclei != [] {
      var init, n := nuclei[..|nuclei| - 1], nuclei[|nuclei| - 1];
      assert nuclei == init + [n];
      InventoryMembers(init, inits, codas, disabled, s);
      BlockMembers(n, inits, codas, disabled, s);
      if s !in disabled && exists m :: m in nuclei && Combination(s, m, inits, codas) {
        var m :| m in nuclei && Combination(s, m, inits, codas);
        if m != n {
          assert m in init;
        }
      }
    }
  }

  /** The positional filter keeps the pool's order: the permitted single
      consonants come first, every one of them, then the permitted clusters. */
  lemma PoolOrder(consonants: seq<string>, clusters: seq<string>, excluded: seq<string>)
    ensures Without(consonants + clusters, excluded) == Without(consonants, excluded) + Without(clusters, excluded)
    ensures forall c :: c in consonants && c !in excluded ==>
              exists k :: 0 <= k < |Without(consonants, excluded)| && Without(consonants + clusters, excluded)[k] == c
  {
    WithoutAppend(consonants, clusters, excluded);
    var singles := Without(consonants, excluded);
    forall c | c in consonants && c !in excluded
      ensures exists k :: 0 <= k < |singles| && Without(consonants + clusters, excluded)[k] == c
    {
      WithoutMembers(consonants, excluded, c);
      var k :| 0 <= k < |singles| && singles[k] == c;
      assert Without(consonants + clusters, excluded)[k] == c;
    }
  }
}
