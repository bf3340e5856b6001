/**
 * Sequence building blocks shared by every stage of the syllable builder:
 * concatenating a string in front of or behind every entry of a list,
 * the row-major cross product that the nested `for` loops produce, and the
 * order-preserving filter by an exclusion list (`if list.contains(x) { continue }`).
 *
 * Every function peels off the LAST element, so that a loop which pushes
 * one string per iteration keeps `acc == F(xs[..i])` by plain unfolding.
 */
module Sequences {

  /** `p + y` for every `y` of `ys`, in order. */
  function Prefixed(p: string, ys: seq<string>): (r: seq<string>)
    ensures |r| == |ys|
    ensures forall j :: 0 <= j < |ys| ==> r[j] == p + ys[j]
  {
    if ys == [] then [] else Prefixed(p, ys[..|ys| - 1]) + [p + ys[|ys| - 1]]
  }

  /** `x + s` for every `x` of `xs`, in order. */
  function Suffixed(xs: seq<string>, s: string): (r: seq<string>)
    ensures |r| == |xs|
    ensures forall i :: 0 <= i < |xs| ==> r[i] == xs[i] + s
  {
    if xs == [] then [] else Suffixed(xs[..|xs| - 1], s) + [xs[|xs| - 1] + s]
  }

  /** The row-major cross product: for every `x` of `xs`, for every `y` of `ys`, `x + y`. */
  function Cross(xs: seq<string>, ys: seq<string>): (r: seq<string>)
    ensures |r| == |xs| * |ys|
  {
    if xs == [] then []
    else
      var r := Cross(xs[..|xs| - 1], ys) + Prefixed(xs[|xs| - 1], ys);
      assert |r| == (|xs| - 1) * |ys| + |ys|;
      r
  }

  /** The entries of `ss` that are not in `excluded`, in their original order
      and with their multiplicity. */
  function Without(ss: seq<string>, excluded: seq<string>): (r: seq<string>)
    ensures |r| <= |ss|
  {
    if ss == [] then []
    else
      var last := ss[|ss| - 1];
      assert ss == ss[..|ss| - 1] + [last];
      Without(ss[..|ss| - 1], excluded) + (if last in excluded then [] else [last])
  }

  // ---- one loop iteration at a time ----

  lemma MulSucc(n: nat, g: nat)
    ensures n * g + g == (n + 1) * g
  {
  }

  /** Associativity of concatenation, stated over names for the parts so
      that a caller need not expose what the parts are. */
  lemma Regroup<T>(a: seq<T>, b: seq<T>, c: seq<T>, ab: seq<T>, bc: seq<T>, abc: seq<T>)
    requires ab == a + b && bc == b + c && abc == ab + c
    ensures abc == a + bc
  {
  }

  /** Appending to a list that starts out empty. */
  lemma EmptyPrefix(a: seq<string>, b: seq<string>, r: seq<string>)
    requires r == [] + a + b
    ensures r == a + b
  {
  }

  /** One iteration of a filtering loop: `acc'` is `acc` with `s` pushed
      unless `s` is excluded, and `next` is `done` extended by `s`. */
  lemma KeepStep(base: seq<string>, done: seq<string>, s: string, next: seq<string>, excluded: seq<string>, acc: seq<string>, acc': seq<string>)
    requires next == done + [s]
    requires acc == base + Without(done, excluded)
    requires acc' == if s in excluded then acc else acc + [s]
    ensures acc' == base + Without(next, excluded)
  {
    WithoutSnoc(done, s, excluded);
    if s !in excluded {
      Regroup(base, Without(done, excluded), [s], acc, Without(next, excluded), acc');
    } else {
      assert Without(next, excluded) == Without(done, excluded);
    }
  }

  /** A whole filtering loop over `more` appended after the filtered `done`. */
  lemma KeepAppend(base: seq<string>, done: seq<string>, more: seq<string>, whole: seq<string>, excluded: seq<string>, acc: seq<string>, acc': seq<string>)
    requires whole == done + more
    requires acc == base + Without(done, excluded)
    requires acc' == acc + Without(more, excluded)
    ensures acc' == base + Without(whole, excluded)
  {
    WithoutAppend(done, more, excluded);
    Regroup(base, Without(done, excluded), Without(more, excluded), acc, Without(whole, excluded), acc');
  }

  lemma PrefixedStep(p: string, ys: seq<string>, j: nat)
    requires j < |ys|
    ensures Prefixed(p, ys[..j + 1]) == Prefixed(p, ys[..j]) + [p + ys[j]]
  {
    assert ys[..j + 1][..j] == ys[..j];
  }

  lemma SuffixedStep(xs: seq<string>, s: string, i: nat)
    requires i < |xs|
    ensures Suffixed(xs[..i + 1], s) == Suffixed(xs[..i], s) + [xs[i] + s]
  {
    assert xs[..i + 1][..i] == xs[..i];
  }

  lemma CrossStep(xs: seq<string>, ys: seq<string>, i: nat)
    requires i < |xs|
    ensures Cross(xs[..i + 1], ys) == Cross(xs[..i], ys) + Prefixed(xs[i], ys)
  {
    assert xs[..i + 1][..i] == xs[..i];
  }

  lemma WithoutSnoc(ss: seq<string>, s: string, excluded: seq<string>)
    ensures Without(ss + [s], excluded) == Without(ss, excluded) + (if s in excluded then [] else [s])
  {
    assert (ss + [s])[..|ss|] == ss;
  }

  // ---- properties ----

  /** Filtering a concatenation filters each part: the filter keeps the order. */
  lemma {:induction false} WithoutAppend(a: seq<string>, b: seq<string>, excluded: seq<string>)
    ensures Without(a + b, excluded) == Without(a, excluded) + Without(b, excluded)
    decreases |b|
  {
    if b == [] {
      assert a + b == a;
    } else {
      var init, last := b[..|b| - 1], b[|b| - 1];
      assert b == init + [last];
      assert a + b == (a + init) + [last];
      WithoutSnoc(a + init, last, excluded);
      WithoutSnoc(init, last, excluded);
      WithoutAppend(a, init, excluded);
    }
  }

  /** An empty exclusion list removes nothing. */
  lemma {:induction false} WithoutNothing(ss: seq<string>)
    ensures Without(ss, []) == ss
  {
    if ss != [] {
      WithoutNothing(ss[..|ss| - 1]);
      assert ss == ss[..|ss| - 1] + [ss[|ss| - 1]];
    }
  }

  /** The cross product is row-major: row `i` holds `xs[i] + ys[j]` for `j` in order. */
  lemma {:induction false} CrossAt(xs: seq<string>, ys: seq<string>, i: nat, j: nat)
    requires i < |xs| && j < |ys|
    ensures i * |ys| + j < |Cross(xs, ys)|
    ensures Cross(xs, ys)[i * |ys| + j] == xs[i] + ys[j]
  {
    var init := xs[..|xs| - 1];
    if i == |xs| - 1 {
      assert i * |ys| + j == |Cross(init, ys)| + j;
    } else {
      CrossAt(init, ys, i, j);
    }
  }

  /** The filter keeps exactly the entries that are not excluded. */
  lemma {:induction false} WithoutMembers(ss: seq<string>, excluded: seq<string>, s: string)
    ensures s in Without(ss, excluded) <==> s in ss && s !in excluded
  {
    if ss != [] {
      var init, last := ss[..|ss| - 1], ss[|ss| - 1];
      assert ss == init + [last];
      WithoutMembers(init, excluded, s);
    }
  }

  lemma PrefixedMembers(p: string, ys: seq<string>, s: string)
    ensures s in Prefixed(p, ys) <==> exists y :: y in ys && s == p + y
  {
    var r := Prefixed(p, ys);
    if s in r {
      var j :| 0 <= j < |r| && r[j] == s;
      assert ys[j] in ys && s == p + ys[j];
    }
    if exists y :: y in ys && s == p + y {
      var y :| y in ys && s == p + y;
      var j :| 0 <= j < |ys| && ys[j] == y;
      assert r[j] == s;
    }
  }

  lemma SuffixedMembers(xs: seq<string>, t: string, s: string)
    ensures s in Suffixed(xs, t) <==> exists x :: x in xs && s == x + t
  {
    var r := Suffixed(xs, t);
    if s in r {
      var i :| 0 <= i < |r| && r[i] == s;
      assert xs[i] in xs && s == xs[i] + t;
    }
    if exists x :: x in xs && s == x + t {
      var x :| x in xs && s == x + t;
      var i :| 0 <= i < |xs| && xs[i] == x;
      assert r[i] == s;
    }
  }

  /** The cross product holds exactly the concatenations of an `xs` entry with a `ys` entry. */
  lemma {:induction false} CrossMembers(xs: seq<string>, ys: seq<string>, s: string)
    ensures s in Cross(xs, ys) <==> exists x, y :: x in xs && y in ys && s == x + y
  {
    if xs != [] {
      var init, last := xs[..|xs| - 1], xs[|xs| - 1];
      assert xs == init + [last];
      CrossMembers(init, ys, s);
      PrefixedMembers(last, ys, s);
      if exists x, y :: x in xs && y in ys && s == x + y {
        var x, y :| x in xs && y in ys && s == x + y;
        if x != last {
          assert x in init;
        }
      }
    }
  }
}
