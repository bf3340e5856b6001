# Syllable inventory builder, modelled in Dafny

This project models the syllable-inventory generator of `rusty_word_builder`.
That is the staged `SyllableBuilder` and the `SyllableHandler` it returns
(`src/syllable.rs`), together with the mode enumerations that steer it
(`src/settings.rs`).

A builder holds settings, raw data (vowels, consonants, optional supplied
diphthongs and clusters), exclusion lists, and five intermediate lists.
Each `create_*` stage appends to one of those lists:

- the diphthongs, as a vowel-by-vowel product shaped by the diphthong mode;
- the "y"/"w" glides of the vowels and the existing diphthongs;
- the consonant clusters of 2 up to 4 consonants;
- the nucleus list (vowels, then diphthongs);
- the onset and coda pools: the single consonants, then the clusters, each
  filtered by its own exclusion list.

`build` then emits, for every nucleus in order:

1. the bare nucleus;
2. its onset forms;
3. its coda forms;
4. its onset-coda forms.

Only the combinations are filtered against the disabled combinations.

## Layout

- `settings.dfy` (module `Settings`): the five mode enumerations as datatypes,
  and the number of consonants each cluster length allows.
- `sequences.dfy` (module `Sequences`): the sequence shapes the loops build.
  These are a string glued before or after every entry, the row-major cross
  product, and the order-preserving filter by an exclusion list. The module
  also holds the one-iteration lemmas the loops use and the membership lemmas.
- `expansion.dfy` (module `Expansion`): the diphthongs, glides and clusters
  one stage appends, as functions of its inputs, and what is proved about
  them (counts, order, the NoLong/All and glide-half relations, and the
  spelling of every cluster).
- `assembly.dfy` (module `Assembly`): what `build` emits, as a function of the
  nuclei, onsets, codas and disabled combinations. It proves the block shape,
  the total length, membership in both directions, and that nuclei are
  handled one by one.
- `syllable.dfy` (module `Syllable`): the class `SyllableBuilder` with the
  struct's sixteen fields, and the datatype `SyllableHandler`.
  - Every setter is a method whose frame names only its own field(s), so
    nothing else changes.
  - Every creation stage is a method with the source's nested loops.
  - Each method's `ensures` gives the new value of its one field as the old
    value followed by the list the `Expansion` or `Assembly` function
    describes.
  - A Rust `assert_eq!`/`assert_ne!`/`panic!` becomes a `requires`.
  - The loops that push into a field run in a static method over sequence
    values (`PushDiphthongs`, `CollectGlides`, `PushClusters`). The field is
    then assigned the result once. `create_glides` does the same in the
    source: it fills a local vector and extends the field.
  - One `build` iteration, the push of the bare nucleus and the three
    loops after it, is `PushBlock`; each loop is one of its three helpers.
  - `ConfigureLibraryExample`, `SupplyLibraryData`, `RunLibraryStages` and
    `LibraryPipeline` replay the call order of the library's own example
    (`src/lib.rs:50-68`). `LibraryPipeline` states the inventory it yields.

## Model

| member | source | states |
|---|---|---|
| Syllable.SyllableBuilder.constructor | src/syllable.rs:35-57 | A new builder has the default settings: structure All, diphthongs All, glides All, clusters All, cluster length CC. Every vector is empty. |
| Syllable.SyllableBuilder.WithSyllableStructureSettings | src/syllable.rs:60-66 | Sets the structure setting. No other field changes. |
| Syllable.SyllableBuilder.WithDiphthongSettings | src/syllable.rs:68-74 | Sets the diphthong mode. No other field changes. |
| Syllable.SyllableBuilder.WithGlideSettings | src/syllable.rs:76-79 | Sets the glide mode. No other field changes. |
| Syllable.SyllableBuilder.WithConsonantClusterSettings | src/syllable.rs:81-89 | Sets the cluster mode and the cluster length together. No other field changes. |
| Syllable.SyllableBuilder.WithDisabledDiphthongs | src/syllable.rs:91-99 | Allowed only in diphthong mode DisableGiven (the assertion at line 95). Replaces the disabled-diphthong list and nothing else. |
| Syllable.SyllableBuilder.WithDisabledInitCluster | src/syllable.rs:101-107 | Replaces the onset exclusion list and nothing else. |
| Syllable.SyllableBuilder.WithDisabledCodaCluster | src/syllable.rs:109-115 | Replaces the coda exclusion list and nothing else. |
| Syllable.SyllableBuilder.WithDisabledCombinations | src/syllable.rs:117-123 | Replaces the list of disabled combinations and nothing else. |
| Syllable.SyllableBuilder.WithVowelData | src/syllable.rs:127-130 | Replaces the vowels and nothing else. |
| Syllable.SyllableBuilder.WithDiphthongData | src/syllable.rs:132-136 | Allowed only in diphthong mode OnlyGiven (line 133). Replaces the diphthong list and nothing else. |
| Syllable.SyllableBuilder.WithConsonantData | src/syllable.rs:138-141 | Replaces the consonants and nothing else. |
| Syllable.SyllableBuilder.WithConsonantClusterData | src/syllable.rs:143-150 | Allowed only in cluster mode OnlyGiven (line 147). Replaces the cluster list and nothing else. |
| Syllable.SyllableBuilder.CreateDiphthongs | src/syllable.rs:154-187 | Only `diphthongs` changes. It becomes its old value followed by the diphthongs of the current mode. OnlyGiven leaves it unchanged. |
| Syllable.SyllableBuilder.PushDiphthongs | src/syllable.rs:155-185 | The nested loops of each mode, starting from a given list, yield that list followed by the mode's diphthongs: all vowel pairs row-major, the pairs of different vowels, the non-disabled pairs, or nothing. |
| Syllable.SyllableBuilder.CreateGlides | src/syllable.rs:189-221 | Only `diphthongs` changes. It becomes its old value followed by the glides of the vowels and of the diphthongs present at the call. Glides appended in the same call are never prefixed again. |
| Syllable.SyllableBuilder.CollectGlides | src/syllable.rs:190-218 | The local glide list of each mode: "y"+v, "w"+v per vowel then per diphthong (All), or "w"+x only (AllOnlyU), or "y"+x only (AllOnlyY). |
| Syllable.SyllableBuilder.CreateConsonantCluster | src/syllable.rs:223-269 | Requires length not C (line 224), length not None (line 265) and mode not OnlyGiven (line 225). Only `consonantCluster` changes: it is extended by the clusters of 2 up to 2/3/4 consonants. The result does not depend on whether the mode is All, NoDouble or DisableGiven. |
| Syllable.SyllableBuilder.PushClusters | src/syllable.rs:226-264 | The 2-, 3- and 4-deep loops extend a given list by exactly the clusters of 2 up to the length's maximum, in the loops' nesting order. |
| Syllable.SyllableBuilder.CreateNucleus | src/syllable.rs:271-281 | Only `nucleus` changes. It becomes its old value followed by the vowels and then the diphthongs. Because it appends, calling it twice doubles the appended part. |
| Syllable.SyllableBuilder.CreateInitCluster | src/syllable.rs:283-299 | Only `initCluster` changes. It is extended by the consonants not in the onset exclusion list, then the clusters not in it, in order. The coda exclusion list plays no part. |
| Syllable.SyllableBuilder.CreateCodaCluster | src/syllable.rs:301-317 | The same for `codaCluster`, with the coda exclusion list only. |
| Syllable.SyllableBuilder.Build | src/syllable.rs:319-348 | The handler's syllables, which `all` returns unchanged (lines 357-363), are the block of every nucleus in nucleus order. The builder is not modified. The structure setting plays no part. |
| Syllable.SyllableBuilder.PushBlock | src/syllable.rs:321-345 | One nucleus iteration appends its bare nucleus, then the non-disabled onset forms, coda forms and onset-coda forms. |
| Syllable.SyllableBuilder.PushOnsetForms | src/syllable.rs:323-329 | Appends onset + nucleus for every onset in order, except the disabled combinations. |
| Syllable.SyllableBuilder.PushCodaForms | src/syllable.rs:330-336 | Appends nucleus + coda for every coda in order, except the disabled combinations. |
| Syllable.SyllableBuilder.PushTriples | src/syllable.rs:337-345 | Appends onset + nucleus + coda, row-major over onsets then codas, except the disabled combinations. |
| Syllable.ConfigureLibraryExample | src/lib.rs:50-57 | The example's settings: CVC, supplied diphthongs, All glides, supplied clusters, length None. The diphthong, cluster, nucleus, onset and coda lists and the disabled combinations are still empty. |
| Syllable.SupplyLibraryData | src/lib.rs:58-63 | The example's data calls, in order, set exactly the vowels, diphthongs, exclusion lists, consonants and clusters. The setters' preconditions hold in the configured modes. |
| Syllable.RunLibraryStages | src/lib.rs:64-67 | The example's stages (glides, nucleus, onsets, codas) leave the nuclei as vowels ++ diphthongs ++ their glides. In OnlyGiven cluster mode, the onsets and codas are the filtered single consonants followed by the filtered supplied clusters only. |
| Syllable.LibraryPipeline | src/lib.rs:50-68 | The whole example yields exactly the inventory of those nuclei, onsets and codas, with no disabled combinations. |
| Expansion.NoLongIsAllWithoutLongVowels | src/settings.rs:13-17 | NoLong yields the joined vowel pairs with exactly the equal-vowel pairs dropped, in the order of the All list, which is the joined pairs unfiltered (realised at src/syllable.rs:174-183). |
| Expansion.DisableGivenIsAllWithoutGiven | src/settings.rs:17 | The DisableGiven diphthongs are the All diphthongs, in order, without the supplied strings. A string is among them if and only if it is an All diphthong and not supplied (realised at src/syllable.rs:163-173). |
| Expansion.DiphthongCounts | src/syllable.rs:156-183 | For `n` distinct vowels, All appends `n * n` diphthongs and NoLong `n * n - n`. |
| Sequences.CrossAt | src/syllable.rs:157-161 | The product is row-major: entry `i * m + j` is vowel `i` followed by vowel `j`, including `i == j`. |
| Expansion.GlideCounts | src/syllable.rs:189-218 | With `v` vowels and `d` diphthongs, All appends `2 * (v + d)` glides, and AllOnlyU and AllOnlyY append `v + d` each. Entry `k` of AllOnlyU is "w" + (vowels ++ diphthongs)[k]; of AllOnlyY, "y" + the same. |
| Expansion.GlideHalves | src/settings.rs:28-31 | The All glides alternate: entry `2k` is the `k`-th AllOnlyY glide and entry `2k+1` the `k`-th AllOnlyU glide. |
| Expansion.GlidesAllIsPermutationOfHalves | src/settings.rs:28-31 | The All glides are a permutation of the AllOnlyY glides followed by the AllOnlyU glides. |
| Expansion.ClustersSpelled | src/settings.rs:39-47 | "Max cluster length", both directions: a string is a generated cluster if and only if it is the concatenation of between 2 and `k` consonants (realised at src/syllable.rs:227-264). No cluster is made of fewer than two consonants. A cluster can still spell the same string as a consonant symbol of several characters ("k" + "s" and "ks"); the pools then hold that string twice. |
| Expansion.ClusterCounts | src/syllable.rs:227-264 | With `m` consonants, CC appends `m^2` clusters, CCC `m^2 + m^3`, and CCCC `m^2 + m^3 + m^4`. |
| Expansion.ClustersOrder | src/syllable.rs:227-264 | CC is the row-major product. For CCC and CCCC, each `c1c2` is immediately followed by its extensions, each of which is followed in turn by its own. |
| Assembly.BlockShape | src/syllable.rs:321-345 | Every block is non-empty and starts with its bare nucleus, which is never filtered. No later entry of a block is a disabled combination. |
| Assembly.BlockMembers | src/syllable.rs:321-345 | A block holds its nucleus, and exactly the non-disabled onset, coda and onset-coda combinations with it. |
| Assembly.InventoryMembers | src/syllable.rs:319-348 | Both directions: a string is in the inventory if and only if it is a nucleus, or a non-disabled combination of a nucleus with an onset, a coda or both. |
| Assembly.InventoryLength | src/syllable.rs:319-348 | With `n` nuclei, `i` onsets, `c` codas and no disabled combinations, the inventory has `n * ((1 + i) * (1 + c))` entries, whatever the lists hold. Nothing is deduplicated. |
| Assembly.InventoryAppend | src/syllable.rs:321-346 | The inventory of two nucleus lists laid end to end is their two inventories laid end to end: every nucleus is handled on its own. |
| Assembly.InventorySplit | src/syllable.rs:321-346 | The block of nucleus `a` lies between the inventories of the nuclei before and after it. Without disabled combinations it starts at offset `a * (1 + i) * (1 + c)` for `i` onsets and `c` codas. Each nucleus entry, even a repeated one, yields its own block. |
| Assembly.PoolOrder | src/settings.rs:49-50 | "Single consonants are automatically added": filtering the pool keeps its order. Every non-excluded single consonant appears, ahead of all the clusters (realised at src/syllable.rs:284-296 and 302-314). |
| Sequences.WithoutMembers | src/syllable.rs:284-296 | The exclusion filter keeps exactly the entries not in the exclusion list. |
| Sequences.WithoutAppend | src/syllable.rs:284-296 | Filtering the consonants and then the clusters is filtering their concatenation. |

## Left out

- `SyllableHandler::write` (`src/syllable.rs:365-387`), with `WriteOption` and `SyllableFormat` (`src/settings.rs:63-71`), is not modelled. It is CSV file output through an external crate, plus placeholder console output.
- Structure-dependent emission (CV/VC/CVC, described at `src/settings.rs:1-4`) is not modelled, because `build` never reads the field.
- NoDouble's "no same in a row" and a cluster DisableGiven list (`src/settings.rs:52-54`) are not modelled, because the builder implements neither. The model follows the code: those modes generate what All generates.
- Clusters are compared as strings, like everything else: when a consonant list holds both "k", "s" and "ks", the generated cluster "ks" equals the consonant "ks" and the onset and coda pools hold it twice. The model keeps this behaviour and does not promise that clusters and single consonants differ.
- Symbols are opaque strings. `format!` is concatenation, and `contains` and `==` are exact sequence equality. There is no Unicode or phonetic content.
- `&mut self` chaining is not modelled; each builder call is a separate method call on the same object.
- Panics (`assert_eq!`, `assert_ne!`, `panic!`) are modelled as preconditions, so a panicking call is one the model does not allow.
- `src/syllable.rs:265` names `ConsonantCluster::None`, which is not a variant of `ConsonantCluster`. It is read as `ConsonantClusterLength::None`, and `CreateConsonantCluster` requires the length not to be None. With length C excluded at line 224, the catch-all arm at line 266 cannot be reached.
- The push loops of the creation stages run on sequence values in static methods, and the field is assigned the result once. A `Vec` that is extended in place is therefore modelled as a field assigned a new sequence. No aliasing of the vectors is possible in the source either.
- `src/lib.rs` has only an example without assertions, which writes a CSV file. Only its call order is modelled (`LibraryPipeline`); its concrete symbols and the file output are not.
- Where a descriptive account of the library disagrees with the code, the code is followed. Examples are deduplication or configuration errors for unsupported mode combinations: the code has neither.
