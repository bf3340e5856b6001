/**
 * The staged syllable builder and the handler it returns.
 *
 * `SyllableBuilder` holds the settings, the raw data and the intermediate
 * lists as fields; the `With...` methods assign settings and data, and the
 * `Create...` methods append to one list each with the same nested loops as
 * the builder they model. Each method's contract names the one field it may
 * change and states the new value of that field as its old value followed
 * by the list the corresponding function of `Expansion` or `Assembly` gives.
 * A panicking assertion of the builder becomes a precondition.
 *
 * After each push, a `Regroup` or `KeepStep` call from `Sequences` turns
 * `acc == before + done` with the pushed entry into the loop invariant
 * `acc == before + next`; it names each group of the concatenation so that
 * the solver need not rediscover the regrouping by extensionality.
 */
module Syllable {
  import opened Settings
  import opened Sequences
  import opened Expansion
  import opened Assembly

  /** The finished inventory. */
  datatype SyllableHandler = SyllableHandler(syllables: seq<string>)
  {
    /** A copy of every syllable, in generation order. */
    function All(): seq<string>
    {
      syllables
    }
  }

  class SyllableBuilder {
    var syllableStructure: SyllableStructure
    var diphthongSettings: Diphthongs
    var glideSettings: Glides
    var consonantClusterSettings: ConsonantCluster
    var consonantClusterLength: ConsonantClusterLength
    var disabledCombinations: seq<string>

    var vowels: seq<string>
    var diphthongs: seq<string>
    var disabledDiphthongs: seq<string>

    var consonants: seq<string>
    var consonantCluster: seq<string>

    var disabledInitCluster: seq<string>
    var disabledCodaCluster: seq<string>

    var initCluster: seq<string>
    var nucleus: seq<string>
    var codaCluster: seq<string>

    /** Default settings (All, All, All, All, at most two consonants per
        cluster) and no content. */
    constructor ()
      ensures syllableStructure == SyllableStructure.All
      ensures diphthongSettings == Diphthongs.All
      ensures glideSettings == Glides.All
      ensures consonantClusterSettings == ConsonantCluster.All
      ensures consonantClusterLength == CC
      ensures disabledCombinations == []
      ensures vowels == [] && diphthongs == [] && disabledDiphthongs == []
      ensures consonants == [] && consonantCluster == []
      ensures disabledInitCluster == [] && disabledCodaCluster == []
      ensures initCluster == [] && nucleus == [] && codaCluster == []
    {
      syllableStructure := SyllableStructure.All;
      diphthongSettings := Diphthongs.All;
      glideSettings := Glides.All;
      consonantClusterSettings := ConsonantCluster.All;
      consonantClusterLength := CC;
      disabledCombinations := [];
      vowels := [];
      diphthongs := [];
      disabledDiphthongs := [];
      consonants := [];
      consonantCluster := [];
      disabledInitCluster := [];
      disabledCodaCluster := [];
      initCluster := [];
      nucleus := [];
      codaCluster := [];
    }

    // ---------------- settings ----------------

    method WithSyllableStructureSettings(structure: SyllableStructure)
      modifies this`syllableStructure
      ensures syllableStructure == structure
    {
      syllableStructure := structure;
    }

    method WithDiphthongSettings(settings: Diphthongs)
      modifies this`diphthongSettings
      ensures diphthongSettings == settings
    {
      diphthongSettings := settings;
    }

    method WithGlideSettings(settings: Glides)
      modifies this`glideSettings
      ensures glideSettings == settings
    {
      glideSettings := settings;
    }

    method WithConsonantClusterSettings(settings: ConsonantCluster, length: ConsonantClusterLength)
      modifies this`consonantClusterSettings, this`consonantClusterLength
      ensures consonantClusterSettings == settings && consonantClusterLength == length
    {
      consonantClusterSettings := settings;
      consonantClusterLength := length;
    }

    /** Only meaningful, and only allowed, in DisableGiven mode. */
    method WithDisabledDiphthongs(disabled: seq<string>)
      requires diphthongSettings == Diphthongs.DisableGiven
      modifies this`disabledDiphthongs
      ensures disabledDiphthongs == disabled
    {
      disabledDiphthongs := disabled;
    }

    method WithDisabledInitCluster(disabled: seq<string>)
      modifies this`disabledInitCluster
      ensures disabledInitCluster == disabled
    {
      disabledInitCluster := disabled;
    }

    method WithDisabledCodaCluster(disabled: seq<string>)
      modifies this`disabledCodaCluster
      ensures disabledCodaCluster == disabled
    {
      disabledCodaCluster := disabled;
    }

    method WithDisabledCombinations(disabled: seq<string>)
      modifies this`disabledCombinations
      ensures disabledCombinations == disabled
    {
      disabledCombinations := disabled;
    }

    // ---------------- data ----------------

    method WithVowelData(data: seq<string>)
      modifies this`vowels
      ensures vowels == data
    {
      vowels := data;
    }

    /** Supplied diphthongs replace the list; only allowed in OnlyGiven mode. */
    method WithDiphthongData(data: seq<string>)
      requires diphthongSettings == Diphthongs.OnlyGiven
      modifies this`diphthongs
      ensures diphthongs == data
    {
      diphthongs := data;
    }

    method WithConsonantData(data: seq<string>)
      modifies this`consonants
      ensures consonants == data
    {
      consonants := data;
    }

    /** Supplied clusters replace the list; only allowed in OnlyGiven mode. */
    method WithConsonantClusterData(data: seq<string>)
      requires consonantClusterSettings == ConsonantCluster.OnlyGiven
      modifies this`consonantCluster
      ensures consonantCluster == data
    {
      consonantCluster := data;
    }

    // ---------------- creation ----------------

    /** Appends the diphthongs of the current mode: every ordered vowel pair
        (All), those of two different vowels (NoLong), those not disabled
        (DisableGiven), or nothing (OnlyGiven). */
    method CreateDiphthongs()
      modifies this`diphthongs
      ensures diphthongs == old(diphthongs) + DiphthongsOf(diphthongSettings, vowels, disabledDiphthongs)
    {
      diphthongs := PushDiphthongs(diphthongSettings, vowels, disabledDiphthongs, diphthongs);
    }

    /** The pushes of `CreateDiphthongs`, on the list `start` they extend. */
    static method PushDiphthongs(mode: Diphthongs, vs: seq<string>, disabled: seq<string>, start: seq<string>) returns (acc: seq<string>)
      ensures acc == start + DiphthongsOf(mode, vs, disabled)
    {
      acc := start;
      assert vs[..|vs|] == vs;
      match mode {
        case All =>
          for i := 0 to |vs|
            invariant acc == start + Cross(vs[..i], vs)
          {
            ghost var before := acc;
            for j := 0 to |vs|
              invariant acc == before + Prefixed(vs[i], vs[..j])
            {
              ghost var prev := acc;
              acc := acc + [vs[i] + vs[j]];
              PrefixedStep(vs[i], vs, j);
              Regroup(before, Prefixed(vs[i], vs[..j]), [vs[i] + vs[j]], prev, Prefixed(vs[i], vs[..j + 1]), acc);
            }
            CrossStep(vs, vs, i);
            Regroup(start, Cross(vs[..i], vs), Prefixed(vs[i], vs), before, Cross(vs[..i + 1], vs), acc);
          }
        case DisableGiven =>
          for i := 0 to |vs|
            invariant acc == start + Without(Cross(vs[..i], vs), disabled)
          {
            ghost var before := acc;
            for j := 0 to |vs|
              invariant acc == before + Without(Prefixed(vs[i], vs[..j]), disabled)
            {
              var diphthong := vs[i] + vs[j];
              ghost var prev := acc;
              PrefixedStep(vs[i], vs, j);
              if diphthong in disabled {
                KeepStep(before, Prefixed(vs[i], vs[..j]), diphthong, Prefixed(vs[i], vs[..j + 1]), disabled, prev, acc);
                continue;
              }
              acc := acc + [diphthong];
              KeepStep(before, Prefixed(vs[i], vs[..j]), diphthong, Prefixed(vs[i], vs[..j + 1]), disabled, prev, acc);
            }
            CrossStep(vs, vs, i);
            KeepAppend(start, Cross(vs[..i], vs), Prefixed(vs[i], vs), Cross(vs[..i + 1], vs), disabled, before, acc);
          }
        case NoLong =>
          for i := 0 to |vs|
            invariant acc == start + CrossDistinct(vs[..i], vs)
          {
            ghost var before := acc;
            for j := 0 to |vs|
              invariant acc == before + PrefixedDistinct(vs[i], vs[..j])
            {
              ghost var prev := acc;
              PrefixedDistinctStep(vs[i], vs, j);
              if vs[i] == vs[j] {
                Regroup(before, PrefixedDistinct(vs[i], vs[..j]), [], prev, PrefixedDistinct(vs[i], vs[..j + 1]), acc);
                continue;
              }
              acc := acc + [vs[i] + vs[j]];
              Regroup(before, PrefixedDistinct(vs[i], vs[..j]), [vs[i] + vs[j]], prev, PrefixedDistinct(vs[i], vs[..j + 1]), acc);
            }
            CrossDistinctStep(vs, vs, i);
            Regroup(start, CrossDistinct(vs[..i], vs), PrefixedDistinct(vs[i], vs), before, CrossDistinct(vs[..i + 1], vs), acc);
          }
        case OnlyGiven =>
      }
    }

    /** Appends the glides of the vowels and of the diphthongs present when
        the call starts; the glides appended here are not prefixed again. */
    method CreateGlides()
      modifies this`diphthongs
      ensures diphthongs == old(diphthongs) + GlidesOf(glideSettings, vowels, old(diphthongs))
    {
      var glides := CollectGlides(glideSettings, vowels, diphthongs);
      diphthongs := diphthongs + glides;
    }

    /** The local list of glides that `CreateGlides` fills before extending
        the diphthongs with it. */
    static method CollectGlides(mode: Glides, vs: seq<string>, ds: seq<string>) returns (glides: seq<string>)
      ensures glides == GlidesOf(mode, vs, ds)
    {
      glides := [];
      assert vs[..|vs|] == vs;
      assert ds[..|ds|] == ds;
      match mode {
        case All =>
          for i := 0 to |vs|
            invariant glides == BothPrefixed(vs[..i])
          {
            ghost var prev := glides;
            glides := glides + ["y" + vs[i]];
            glides := glides + ["w" + vs[i]];
            assert glides == prev + ["y" + vs[i], "w" + vs[i]];
            BothPrefixedStep(vs, i);
          }
          ghost var fromVowels := glides;
          for i := 0 to |ds|
            invariant glides == fromVowels + BothPrefixed(ds[..i])
          {
            ghost var prev := glides;
            glides := glides + ["y" + ds[i]];
            glides := glides + ["w" + ds[i]];
            assert glides == prev + ["y" + ds[i], "w" + ds[i]];
            BothPrefixedStep(ds, i);
            Regroup(fromVowels, BothPrefixed(ds[..i]), ["y" + ds[i], "w" + ds[i]], prev, BothPrefixed(ds[..i + 1]), glides);
          }
          assert glides == GlidesOf(Glides.All, vs, ds);
        case AllOnlyU =>
          for i := 0 to |vs|
            invariant glides == Prefixed("w", vs[..i])
          {
            glides := glides + ["w" + vs[i]];
            PrefixedStep("w", vs, i);
          }
          ghost var fromVowels := glides;
          for i := 0 to |ds|
            invariant glides == fromVowels + Prefixed("w", ds[..i])
          {
            ghost var prev := glides;
            glides := glides + ["w" + ds[i]];
            PrefixedStep("w", ds, i);
            Regroup(fromVowels, Prefixed("w", ds[..i]), ["w" + ds[i]], prev, Prefixed("w", ds[..i + 1]), glides);
          }
          assert glides == GlidesOf(AllOnlyU, vs, ds);
        case AllOnlyY =>
          for i := 0 to |vs|
            invariant glides == Prefixed("y", vs[..i])
          {
            glides := glides + ["y" + vs[i]];
            PrefixedStep("y", vs, i);
          }
          ghost var fromVowels := glides;
          for i := 0 to |ds|
            invariant glides == fromVowels + Prefixed("y", ds[..i])
          {
            ghost var prev := glides;
            glides := glides + ["y" + ds[i]];
            PrefixedStep("y", ds, i);
            Regroup(fromVowels, Prefixed("y", ds[..i]), ["y" + ds[i]], prev, Prefixed("y", ds[..i + 1]), glides);
          }
          assert glides == GlidesOf(AllOnlyY, vs, ds);
      }
    }

    /** Appends every cluster of 2 up to the maximal length of consonants, in
        the loops' nesting order. The cluster mode is not consulted, so
        NoDouble and DisableGiven generate what All generates. */
    method CreateConsonantCluster()
      requires consonantClusterLength != C && consonantClusterLength != ConsonantClusterLength.None
      requires consonantClusterSettings != ConsonantCluster.OnlyGiven
      modifies this`consonantCluster
      ensures consonantCluster == old(consonantCluster) + Clusters(consonants, MaxClusterLength(consonantClusterLength))
    {
      consonantCluster := PushClusters(consonantClusterLength, consonants, consonantCluster);
    }

    /** The pushes of `CreateConsonantCluster`, on the list `start` they extend. */
    static method PushClusters(length: ConsonantClusterLength, cs: seq<string>, start: seq<string>) returns (acc: seq<string>)
      requires length != C && length != ConsonantClusterLength.None
      ensures acc == start + Clusters(cs, MaxClusterLength(length))
    {
      acc := start;
      assert cs[..|cs|] == cs;
      match length {
        case CC =>
          for i := 0 to |cs|
            invariant acc == start + Outer(cs[..i], cs, 1)
          {
            ghost var before := acc;
            for j := 0 to |cs|
              invariant acc == before + Grow(cs[i], cs[..j], cs, 1)
            {
              ghost var prev := acc;
              acc := acc + [cs[i] + cs[j]];
              GrowStepLast(cs[i], cs, j);
              Regroup(before, Grow(cs[i], cs[..j], cs, 1), [cs[i] + cs[j]], prev, Grow(cs[i], cs[..j + 1], cs, 1), acc);
            }
            OuterStep(cs, cs, i, 1);
            Regroup(start, Outer(cs[..i], cs, 1), Grow(cs[i], cs, cs, 1), before, Outer(cs[..i + 1], cs, 1), acc);
          }
        case CCC =>
          for i := 0 to |cs|
            invariant acc == start + Outer(cs[..i], cs, 2)
          {
            ghost var before := acc;
            for j := 0 to |cs|
              invariant acc == before + Grow(cs[i], cs[..j], cs, 2)
            {
              ghost var prev := acc;
              acc := acc + [cs[i] + cs[j]];
              ghost var pair := acc;
              for k := 0 to |cs|
                invariant acc == pair + Grow(cs[i] + cs[j], cs[..k], cs, 1)
              {
                ghost var prev' := acc;
                acc := acc + [cs[i] + cs[j] + cs[k]];
                GrowStepLast(cs[i] + cs[j], cs, k);
                Regroup(pair, Grow(cs[i] + cs[j], cs[..k], cs, 1), [cs[i] + cs[j] + cs[k]], prev',
                        Grow(cs[i] + cs[j], cs[..k + 1], cs, 1), acc);
              }
              GrowStep(cs[i], cs, j, 2);
              Regroup(before, Grow(cs[i], cs[..j], cs, 2), [cs[i] + cs[j]], prev, Grow(cs[i], cs[..j], cs, 2) + [cs[i] + cs[j]], pair);
              Regroup(before, Grow(cs[i], cs[..j], cs, 2) + [cs[i] + cs[j]], Grow(cs[i] + cs[j], cs, cs, 1), pair,
                      Grow(cs[i], cs[..j + 1], cs, 2), acc);
            }
            OuterStep(cs, cs, i, 2);
            Regroup(start, Outer(cs[..i], cs, 2), Grow(cs[i], cs, cs, 2), before, Outer(cs[..i + 1], cs, 2), acc);
          }
        case CCCC =>
          for i := 0 to |cs|
            invariant acc == start + Outer(cs[..i], cs, 3)
          {
            ghost var before := acc;
            for j := 0 to |cs|
              invariant acc == before + Grow(cs[i], cs[..j], cs, 3)
            {
              ghost var prev := acc;
              acc := acc + [cs[i] + cs[j]];
              ghost var pair := acc;
              for k := 0 to |cs|
                invariant acc == pair + Grow(cs[i] + cs[j], cs[..k], cs, 2)
              {
                ghost var prev' := acc;
                acc := acc + [cs[i] + cs[j] + cs[k]];
                ghost var triple := acc;
                for l := 0 to |cs|
                  invariant acc == triple + Grow(cs[i] + cs[j] + cs[k], cs[..l], cs, 1)
                {
                  ghost var prev'' := acc;
                  acc := acc + [cs[i] + cs[j] + cs[k] + cs[l]];
                  GrowStepLast(cs[i] + cs[j] + cs[k], cs, l);
                  Regroup(triple, Grow(cs[i] + cs[j] + cs[k], cs[..l], cs, 1), [cs[i] + cs[j] + cs[k] + cs[l]], prev'',
                          Grow(cs[i] + cs[j] + cs[k], cs[..l + 1], cs, 1), acc);
                }
                GrowStep(cs[i] + cs[j], cs, k, 2);
                Regroup(pair, Grow(cs[i] + cs[j], cs[..k], cs, 2), [cs[i] + cs[j] + cs[k]], prev',
                        Grow(cs[i] + cs[j], cs[..k], cs, 2) + [cs[i] + cs[j] + cs[k]], triple);
                Regroup(pair, Grow(cs[i] + cs[j], cs[..k], cs, 2) + [cs[i] + cs[j] + cs[k]], Grow(cs[i] + cs[j] + cs[k], cs, cs, 1), triple,
                        Grow(cs[i] + cs[j], cs[..k + 1], cs, 2), acc);
              }
              GrowStep(cs[i], cs, j, 3);
              Regroup(before, Grow(cs[i], cs[..j], cs, 3), [cs[i] + cs[j]], prev, Grow(cs[i], cs[..j], cs, 3) + [cs[i] + cs[j]], pair);
              Regroup(before, Grow(cs[i], cs[..j], cs, 3) + [cs[i] + cs[j]], Grow(cs[i] + cs[j], cs, cs, 2), pair,
                      Grow(cs[i], cs[..j + 1], cs, 3), acc);
            }
            OuterStep(cs, cs, i, 3);
            Regroup(start, Outer(cs[..i], cs, 3), Grow(cs[i], cs, cs, 3), before, Outer(cs[..i + 1], cs, 3), acc);
          }
      }
    }

    /** Appends the vowels, then the diphthongs (glides included). */
    method CreateNucleus()
      modifies this`nucleus
      ensures nucleus == old(nucleus) + vowels + diphthongs
    {
      var vs, ds := vowels, diphthongs;
      for i := 0 to |vs|
        invariant nucleus == old(nucleus) + vs[..i]
      {
        ghost var prev := nucleus;
        nucleus := nucleus + [vs[i]];
        assert vs[..i + 1] == vs[..i] + [vs[i]];
        Regroup(old(nucleus), vs[..i], [vs[i]], prev, vs[..i + 1], nucleus);
      }
      assert vs[..|vs|] == vs;
      ghost var fromVowels := nucleus;
      for i := 0 to |ds|
        invariant nucleus == fromVowels + ds[..i]
      {
        ghost var prev := nucleus;
        nucleus := nucleus + [ds[i]];
        assert ds[..i + 1] == ds[..i] + [ds[i]];
        Regroup(fromVowels, ds[..i], [ds[i]], prev, ds[..i + 1], nucleus);
      }
      assert ds[..|ds|] == ds;
    }

    /** Appends, in order, the single consonants and then the clusters that
        are not in the disabled onset list. */
    method CreateInitCluster()
      modifies this`initCluster
      ensures initCluster == old(initCluster) + Without(consonants, disabledInitCluster) + Without(consonantCluster, disabledInitCluster)
    {
      var cs, clusters, disabled := consonants, consonantCluster, disabledInitCluster;
      for i := 0 to |cs|
        invariant initCluster == old(initCluster) + Without(cs[..i], disabled)
      {
        ghost var prev := initCluster;
        assert cs[..i + 1] == cs[..i] + [cs[i]];
        if cs[i] in disabled {
          KeepStep(old(initCluster), cs[..i], cs[i], cs[..i + 1], disabled, prev, initCluster);
          continue;
        }
        initCluster := initCluster + [cs[i]];
        KeepStep(old(initCluster), cs[..i], cs[i], cs[..i + 1], disabled, prev, initCluster);
      }
      assert cs[..|cs|] == cs;
      ghost var singles := initCluster;
      for i := 0 to |clusters|
        invariant initCluster == singles + Without(clusters[..i], disabled)
      {
        ghost var prev := initCluster;
        assert clusters[..i + 1] == clusters[..i] + [clusters[i]];
        if clusters[i] in disabled {
          KeepStep(singles, clusters[..i], clusters[i], clusters[..i + 1], disabled, prev, initCluster);
          continue;
        }
        initCluster := initCluster + [clusters[i]];
        KeepStep(singles, clusters[..i], clusters[i], clusters[..i + 1], disabled, prev, initCluster);
      }
      assert clusters[..|clusters|] == clusters;
    }

    /** Appends, in order, the single consonants and then the clusters that
        are not in the disabled coda list. */
    method CreateCodaCluster()
      modifies this`codaCluster
      ensures codaCluster == old(codaCluster) + Without(consonants, disabledCodaCluster) + Without(consonantCluster, disabledCodaCluster)
    {
      var cs, clusters, disabled := consonants, consonantCluster, disabledCodaCluster;
      for i := 0 to |cs|
        invariant codaCluster == old(codaCluster) + Without(cs[..i], disabled)
      {
        ghost var prev := codaCluster;
        assert cs[..i + 1] == cs[..i] + [cs[i]];
        if cs[i] in disabled {
          KeepStep(old(codaCluster), cs[..i], cs[i], cs[..i + 1], disabled, prev, codaCluster);
          continue;
        }
        codaCluster := codaCluster + [cs[i]];
        KeepStep(old(codaCluster), cs[..i], cs[i], cs[..i + 1], disabled, prev, codaCluster);
      }
      assert cs[..|cs|] == cs;
      ghost var singles := codaCluster;
      for i := 0 to |clusters|
        invariant codaCluster == singles + Without(clusters[..i], disabled)
      {
        ghost var prev := codaCluster;
        assert clusters[..i + 1] == clusters[..i] + [clusters[i]];
        if clusters[i] in disabled {
          KeepStep(singles, clusters[..i], clusters[i], clusters[..i + 1], disabled, prev, codaCluster);
          continue;
        }
        codaCluster := codaCluster + [clusters[i]];
        KeepStep(singles, clusters[..i], clusters[i], clusters[..i + 1], disabled, prev, codaCluster);
      }
      assert clusters[..|clusters|] == clusters;
    }

    /** The inventory: for every nucleus in order, the bare nucleus, its
        onset forms, its coda forms and its onset-coda forms, leaving out the
        disabled combinations. The builder is not changed, and the syllable
        structure setting plays no part. */
    method Build() returns (handler: SyllableHandler)
      ensures handler.All() == Inventory(nucleus, initCluster, codaCluster, disabledCombinations)
    {
      var syllables: seq<string> := [];
      var nuclei, inits, codas, disabled := nucleus, initCluster, codaCluster, disabledCombinations;
      for a := 0 to |nuclei|
        invariant syllables == Inventory(nuclei[..a], inits, codas, disabled)
      {
        syllables := PushBlock(syllables, nuclei[a], inits, codas, disabled);
        InventoryStep(nuclei, inits, codas, disabled, a);
      }
      assert nuclei[..|nuclei|] == nuclei;
      handler := SyllableHandler(syllables);
    }

    /** One iteration of the nucleus loop of `Build`: the pushes for nucleus `n`. */
    static method PushBlock(start: seq<string>, n: string, inits: seq<string>, codas: seq<string>, disabled: seq<string>)
      returns (syllables: seq<string>)
      ensures syllables == start + Block(n, inits, codas, disabled)
    {
      syllables := start + [n];
      ghost var bare := syllables;
      syllables := PushOnsetForms(syllables, n, inits, disabled);
      ghost var onsets := syllables;
      syllables := PushCodaForms(syllables, n, codas, disabled);
      ghost var codaForms := syllables;
      syllables := PushTriples(syllables, n, inits, codas, disabled);
      ghost var w1 := Without(Suffixed(inits, n), disabled);
      ghost var w2 := Without(Prefixed(n, codas), disabled);
      ghost var w3 := Without(Cross(Suffixed(inits, n), codas), disabled);
      Regroup(start, [n], w1, bare, [n] + w1, onsets);
      Regroup(start, [n] + w1, w2, onsets, [n] + w1 + w2, codaForms);
      Regroup(start, [n] + w1 + w2, w3, codaForms, Block(n, inits, codas, disabled), syllables);
    }

    /** The first loop of one nucleus in `build`: every onset before the
        nucleus, unless disabled. */
    static method PushOnsetForms(start: seq<string>, n: string, inits: seq<string>, disabled: seq<string>)
      returns (syllables: seq<string>)
      ensures syllables == start + Without(Suffixed(inits, n), disabled)
    {
      assert inits[..|inits|] == inits;
      syllables := start;
      for i := 0 to |inits|
        invariant syllables == start + Without(Suffixed(inits[..i], n), disabled)
      {
        var combination := inits[i] + n;
        ghost var prev := syllables;
        SuffixedStep(inits, n, i);
        if combination in disabled {
          KeepStep(start, Suffixed(inits[..i], n), combination, Suffixed(inits[..i + 1], n), disabled, prev, syllables);
          continue;
        }
        syllables := syllables + [combination];
        KeepStep(start, Suffixed(inits[..i], n), combination, Suffixed(inits[..i + 1], n), disabled, prev, syllables);
      }
    }

    /** The second loop of one nucleus in `build`: every coda after the
        nucleus, unless disabled. */
    static method PushCodaForms(start: seq<string>, n: string, codas: seq<string>, disabled: seq<string>)
      returns (syllables: seq<string>)
      ensures syllables == start + Without(Prefixed(n, codas), disabled)
    {
      assert codas[..|codas|] == codas;
      syllables := start;
      for j := 0 to |codas|
        invariant syllables == start + Without(Prefixed(n, codas[..j]), disabled)
      {
        var combination := n + codas[j];
        ghost var prev := syllables;
        PrefixedStep(n, codas, j);
        if combination in disabled {
          KeepStep(start, Prefixed(n, codas[..j]), combination, Prefixed(n, codas[..j + 1]), disabled, prev, syllables);
          continue;
        }
        syllables := syllables + [combination];
        KeepStep(start, Prefixed(n, codas[..j]), combination, Prefixed(n, codas[..j + 1]), disabled, prev, syllables);
      }
    }

    /** The last loop of one nucleus in `build`: every onset, and within it
        every coda, around the nucleus, unless disabled. */
    static method PushTriples(start: seq<string>, n: string, inits: seq<string>, codas: seq<string>, disabled: seq<string>)
      returns (syllables: seq<string>)
      ensures syllables == start + Without(Cross(Suffixed(inits, n), codas), disabled)
    {
      assert codas[..|codas|] == codas;
      syllables := start;
      ghost var rows := Suffixed(inits, n);
      assert rows[..|rows|] == rows;
      for i := 0 to |inits|
        invariant syllables == start + Without(Cross(rows[..i], codas), disabled)
      {
        ghost var row := syllables;
        for j := 0 to |codas|
          invariant syllables == row + Without(Prefixed(rows[i], codas[..j]), disabled)
        {
          var combination := inits[i] + n + codas[j];
          ghost var prev := syllables;
          PrefixedStep(rows[i], codas, j);
          if combination in disabled {
            KeepStep(row, Prefixed(rows[i], codas[..j]), combination, Prefixed(rows[i], codas[..j + 1]), disabled, prev, syllables);
            continue;
          }
          syllables := syllables + [inits[i] + n + codas[j]];
          KeepStep(row, Prefixed(rows[i], codas[..j]), combination, Prefixed(rows[i], codas[..j + 1]), disabled, prev, syllables);
        }
        CrossStep(rows, codas, i);
        KeepAppend(start, Cross(rows[..i], codas), Prefixed(rows[i], codas), Cross(rows[..i + 1], codas), disabled, row, syllables);
      }
    }
  }

  /** The settings of the library's own example, assigned in its order:
      supplied diphthongs, All glides, supplied clusters. */
  method ConfigureLibraryExample() returns (builder: SyllableBuilder)
    ensures fresh(builder)
    ensures builder.syllableStructure == CVC && builder.diphthongSettings == Diphthongs.OnlyGiven
    ensures builder.glideSettings == Glides.All && builder.consonantClusterSettings == ConsonantCluster.OnlyGiven
    ensures builder.consonantClusterLength == ConsonantClusterLength.None
    ensures builder.diphthongs == [] && builder.consonantCluster == []
    ensures builder.nucleus == [] && builder.initCluster == [] && builder.codaCluster == [] && builder.disabledCombinations == []
  {
    builder := new SyllableBuilder();
    builder.WithSyllableStructureSettings(CVC);
    builder.WithDiphthongSettings(Diphthongs.OnlyGiven);
    builder.WithGlideSettings(Glides.All);
    builder.WithConsonantClusterSettings(ConsonantCluster.OnlyGiven, ConsonantClusterLength.None);
  }

  /** The data of the library's own example, assigned in its order. */
  method SupplyLibraryData(builder: SyllableBuilder, vowels: seq<string>, diphthongs: seq<string>, consonants: seq<string>,
                           clusters: seq<string>, noInit: seq<string>, noCoda: seq<string>)
    requires builder.diphthongSettings == Diphthongs.OnlyGiven && builder.consonantClusterSettings == ConsonantCluster.OnlyGiven
    modifies builder`vowels, builder`diphthongs, builder`disabledInitCluster, builder`disabledCodaCluster
    modifies builder`consonants, builder`consonantCluster
    ensures builder.vowels == vowels && builder.diphthongs == diphthongs
    ensures builder.consonants == consonants && builder.consonantCluster == clusters
    ensures builder.disabledInitCluster == noInit && builder.disabledCodaCluster == noCoda
  {
    builder.WithVowelData(vowels);
    builder.WithDiphthongData(diphthongs);
    builder.WithDisabledInitCluster(noInit);
    builder.WithDisabledCodaCluster(noCoda);
    builder.WithConsonantData(consonants);
    builder.WithConsonantClusterData(clusters);
  }

  /** The creation stages of the library's own example, in its order, on a
      builder configured by `ConfigureLibraryExample`. */
  method RunLibraryStages(builder: SyllableBuilder)
    requires builder.glideSettings == Glides.All && builder.disabledCombinations == []
    requires builder.nucleus == [] && builder.initCluster == [] && builder.codaCluster == []
    modifies builder`diphthongs, builder`nucleus, builder`initCluster, builder`codaCluster
    ensures builder.nucleus == old(builder.vowels) + (old(builder.diphthongs) + GlidesOf(Glides.All, old(builder.vowels), old(builder.diphthongs)))
    ensures builder.initCluster == Without(old(builder.consonants), old(builder.disabledInitCluster)) + Without(old(builder.consonantCluster), old(builder.disabledInitCluster))
    ensures builder.codaCluster == Without(old(builder.consonants), old(builder.disabledCodaCluster)) + Without(old(builder.consonantCluster), old(builder.disabledCodaCluster))
    ensures builder.disabledCombinations == []
  {
    builder.CreateGlides();
    ghost var withGlides := builder.diphthongs;
    builder.CreateNucleus();
    EmptyPrefix(builder.vowels, withGlides, builder.nucleus);
    builder.CreateInitCluster();
    EmptyPrefix(Without(builder.consonants, builder.disabledInitCluster), Without(builder.consonantCluster, builder.disabledInitCluster), builder.initCluster);
    builder.CreateCodaCluster();
    EmptyPrefix(Without(builder.consonants, builder.disabledCodaCluster), Without(builder.consonantCluster, builder.disabledCodaCluster), builder.codaCluster);
  }

  /** The stage order of the library's own example: a builder with supplied
      diphthongs and supplied clusters (so neither `CreateDiphthongs` nor
      `CreateConsonantCluster` runs), All glides and no disabled
      combinations. The nuclei are the vowels, the supplied diphthongs and
      their glides; the onsets and codas are the permitted single consonants
      followed by the permitted supplied clusters. */
  method LibraryPipeline(vowels: seq<string>, diphthongs: seq<string>, consonants: seq<string>, clusters: seq<string>,
                         noInit: seq<string>, noCoda: seq<string>) returns (handler: SyllableHandler)
    ensures handler.All() == Inventory(vowels + (diphthongs + GlidesOf(Glides.All, vowels, diphthongs)),
                                       Without(consonants, noInit) + Without(clusters, noInit),
                                       Without(consonants, noCoda) + Without(clusters, noCoda),
                                       [])
  {
    var builder := ConfigureLibraryExample();
    SupplyLibraryData(builder, vowels, diphthongs, consonants, clusters, noInit, noCoda);
    RunLibraryStages(builder);
    handler := builder.Build();
  }
}
