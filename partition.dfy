/**
 * The work partitioner: the image names are split into as many contiguous,
 * near-equal sections as there are CPUs (numpy's `array_split` rule), empty
 * sections are dropped, and each remaining section becomes one command, the
 * template followed by the section's names.
 */
module Partition {
  import opened Seqs
  import opened Arguments
  import opened Command

  /**
   * The names the partitioner splits. Every name passes through a numpy
   * array of strs, which drops its trailing NUL characters. A lone path is
   * promoted to a one-element list; a list keeps one name per item, a str
   * item as its text. Other items are rendered by `show`, which stands for
   * numpy's conversion of a list that mixes strs with numbers into strs.
   */
  function NameList(show: Value -> string, name: NameArg): (r: seq<string>)
    ensures name.Single? ==> r == [StripNuls(name.path)]
    ensures name.Many? ==> |r| == |name.items|
    ensures name.Many? ==> forall i :: 0 <= i < |r| && name.items[i].Str? ==> r[i] == StripNuls(name.items[i].s)
  {
    match name
    case Single(path) => [StripNuls(path)]
    case Many(items) => seq(|items|, i requires 0 <= i < |items| => StripNuls(Text(show, items[i])))
  }

  /**
   * What a numpy str array gives back for `s`: the text without its trailing
   * NUL characters, and nothing else removed.
   */
  function StripNuls(s: string): (r: string)
    ensures |r| <= |s| && r == s[..|r|]
    ensures |r| == 0 || r[|r| - 1] != '\0'
    ensures forall j :: |r| <= j < |s| ==> s[j] == '\0'
  {
    if |s| > 0 && s[|s| - 1] == '\0' then StripNuls(s[..|s| - 1]) else s
  }

  /** A name that does not end in NUL reaches the command as it is. */
  lemma StripNulsKeeps(s: string)
    requires |s| == 0 || s[|s| - 1] != '\0'
    ensures StripNuls(s) == s
  {
  }

  /** The size of section `k` when `n` items go into `p` sections: the first `n % p` get one more. */
  function SectionSize(n: nat, p: nat, k: nat): nat
    requires p >= 1
  {
    n / p + (if k < n % p then 1 else 0)
  }

  /** Where section `k` starts: the sum of the sizes of the sections before it. */
  function DivPoint(n: nat, p: nat, k: nat): nat
    requires p >= 1
  {
    if k == 0 then 0 else DivPoint(n, p, k - 1) + SectionSize(n, p, k - 1)
  }

  lemma {:induction false} DivPointClosed(n: nat, p: nat, k: nat)
    requires p >= 1
    ensures DivPoint(n, p, k) == k * (n / p) + Min(k, n % p)
  {
    if k > 0 {
      DivPointClosed(n, p, k - 1);
      assert k * (n / p) == (k - 1) * (n / p) + n / p;
    }
  }

  /** The sections start in order and the last one ends at `n`. */
  lemma {:induction false} DivPointBounded(n: nat, p: nat, k: nat)
    requires p >= 1 && k <= p
    ensures DivPoint(n, p, k) <= DivPoint(n, p, p) == n
    decreases p - k
  {
    if k == p {
      DivPointClosed(n, p, p);
      assert p * (n / p) + n % p == n;
    } else {
      DivPointBounded(n, p, k + 1);
    }
  }

  /** Sections `k` to `p - 1` of `xs`, each the slice between two consecutive division points. */
  function SectionsFrom<T>(xs: seq<T>, p: nat, k: nat): seq<seq<T>>
    requires p >= 1 && k <= p
    decreases p - k
  {
    if k == p then []
    else
      DivPointBounded(|xs|, p, k + 1);
      [xs[DivPoint(|xs|, p, k)..DivPoint(|xs|, p, k + 1)]] + SectionsFrom(xs, p, k + 1)
  }

  lemma SectionsFromShape<T>(xs: seq<T>, p: nat, k: nat)
    requires p >= 1 && k <= p
    ensures DivPoint(|xs|, p, k) <= |xs|
    ensures var gs := SectionsFrom(xs, p, k);
      && |gs| == p - k
      && (forall i :: 0 <= i < |gs| ==> |gs[i]| == SectionSize(|xs|, p, k + i))
      && Flatten(gs) == xs[DivPoint(|xs|, p, k)..]
  {
    DivPointBounded(|xs|, p, k);
    SectionsFromSizes(xs, p, k);
    SectionsFromFlatten(xs, p, k);
  }

  lemma {:induction false} SectionsFromSizes<T>(xs: seq<T>, p: nat, k: nat)
    requires p >= 1 && k <= p
    ensures var gs := SectionsFrom(xs, p, k);
      && |gs| == p - k
      && (forall i :: 0 <= i < |gs| ==> |gs[i]| == SectionSize(|xs|, p, k + i))
    decreases p - k
  {
    if k < p {
      SectionsFromSizes(xs, p, k + 1);
      DivPointBounded(|xs|, p, k + 1);
      var a, b := DivPoint(|xs|, p, k), DivPoint(|xs|, p, k + 1);
      var rest := SectionsFrom(xs, p, k + 1);
      var gs := SectionsFrom(xs, p, k);
      assert gs == [xs[a..b]] + rest;
      assert |gs[0]| == b - a == SectionSize(|xs|, p, k);
      forall i | 0 < i < |gs| ensures |gs[i]| == SectionSize(|xs|, p, k + i) {
        assert gs[i] == rest[i - 1];
      }
    }
  }

  lemma {:induction false} SectionsFromFlatten<T>(xs: seq<T>, p: nat, k: nat)
    requires p >= 1 && k <= p
    ensures DivPoint(|xs|, p, k) <= |xs|
    ensures Flatten(SectionsFrom(xs, p, k)) == xs[DivPoint(|xs|, p, k)..]
    decreases p - k
  {
    DivPointBounded(|xs|, p, k);
    if k < p {
      SectionsFromFlatten(xs, p, k + 1);
      DivPointBounded(|xs|, p, k + 1);
      var a, b := DivPoint(|xs|, p, k), DivPoint(|xs|, p, k + 1);
      var rest := SectionsFrom(xs, p, k + 1);
      assert SectionsFrom(xs, p, k) == [xs[a..b]] + rest;
      assert Flatten(SectionsFrom(xs, p, k)) == xs[a..b] + Flatten(rest);
      assert xs[a..] == xs[a..b] + xs[b..];
    } else {
      assert xs[|xs|..] == [];
    }
  }

  /**
   * numpy's `array_split(xs, p)`: `p` contiguous sections, the first
   * `|xs| % p` of size `|xs| / p + 1` and the rest of size `|xs| / p`, which
   * together are `xs` again.
   */
  function ArraySplit<T>(xs: seq<T>, p: nat): (groups: seq<seq<T>>)
    requires p >= 1
    ensures |groups| == p
    ensures forall k :: 0 <= k < p ==> |groups[k]| == SectionSize(|xs|, p, k)
    ensures Flatten(groups) == xs
  {
    SectionsFromShape(xs, p, 0);
    SectionsFrom(xs, p, 0)
  }

  /** The sections that are not empty, in order. */
  function NonEmpty<T>(gs: seq<seq<T>>): seq<seq<T>>
  {
    if gs == [] then []
    else NonEmpty(gs[..|gs| - 1]) + (if |gs[|gs| - 1]| > 0 then [gs[|gs| - 1]] else [])
  }

  /** Dropping empty sections keeps exactly the first `m` when those are the non-empty ones. */
  lemma {:induction false} NonEmptyPrefix<T>(gs: seq<seq<T>>, m: nat)
    requires m <= |gs|
    requires forall k :: 0 <= k < m ==> |gs[k]| > 0
    requires forall k :: m <= k < |gs| ==> |gs[k]| == 0
    ensures NonEmpty(gs) == gs[..m]
  {
    if gs != [] {
      var init := gs[..|gs| - 1];
      if m == |gs| {
        NonEmptyPrefix(init, m - 1);
        assert init[..m - 1] + [gs[|gs| - 1]] == gs[..m];
      } else {
        NonEmptyPrefix(init, m);
        assert init[..m] == gs[..m];
      }
    }
  }

  /** Each section preceded by the template. */
  function Prepend(template: seq<string>, gs: seq<seq<string>>): seq<seq<string>>
  {
    seq(|gs|, i requires 0 <= i < |gs| => template + gs[i])
  }

  /** What follows the first `n` tokens of each command. */
  function Drop(n: nat, cmds: seq<seq<string>>): seq<seq<string>>
  {
    seq(|cmds|, i requires 0 <= i < |cmds| => if n <= |cmds[i]| then cmds[i][n..] else [])
  }

  /** The commands the partitioner hands to the pool, one per non-empty section. */
  function Commands(template: seq<string>, names: seq<string>, cpus: nat): seq<seq<string>>
    requires cpus >= 1
  {
    Prepend(template, NonEmpty(ArraySplit(names, cpus)))
  }

  /**
   * Of the sections of N items into `p`, exactly the first min(p, N) are
   * non-empty; they alone already make up the items, and their sizes differ
   * by at most one, the larger ones first.
   */
  lemma SplitSurvivors<T>(xs: seq<T>, p: nat)
    requires p >= 1
    ensures var gs := ArraySplit(xs, p); var m := Min(p, |xs|);
      && NonEmpty(gs) == gs[..m]
      && Flatten(gs[..m]) == xs
      && (forall i :: 0 <= i < m ==> |gs[i]| > 0)
      && (forall i, j :: 0 <= i < j < m ==> |gs[j]| <= |gs[i]| <= |gs[j]| + 1)
  {
    var gs := ArraySplit(xs, p);
    var m := Min(p, |xs|);
    SplitSizes(xs, p);
    NonEmptyPrefix(gs, m);
    EmptyTailFlatten(gs, m);
  }

  /** Dropping trailing empty sections does not change the concatenation. */
  lemma EmptyTailFlatten<T>(gs: seq<seq<T>>, m: nat)
    requires m <= |gs|
    requires forall k :: m <= k < |gs| ==> |gs[k]| == 0
    ensures Flatten(gs[..m]) == Flatten(gs)
  {
    var tail := gs[m..];
    assert gs == gs[..m] + tail;
    FlattenConcat(gs[..m], tail);
    assert forall k :: 0 <= k < |tail| ==> |tail[k]| == |gs[m + k]|;
    EmptySectionsFlatten(tail);
  }

  /** The sizes of the sections of `array_split`, stated on the sections themselves. */
  lemma SplitSizes<T>(xs: seq<T>, p: nat)
    requires p >= 1
    ensures var gs := ArraySplit(xs, p); var m := Min(p, |xs|);
      && (forall k :: 0 <= k < m ==> |gs[k]| > 0)
      && (forall k :: m <= k < p ==> |gs[k]| == 0)
      && (forall i, j :: 0 <= i < j < p ==> |gs[j]| <= |gs[i]| <= |gs[j]| + 1)
  {
    var gs := ArraySplit(xs, p);
    SectionSizes(|xs|, p);
    forall i, j | 0 <= i < j < p ensures |gs[j]| <= |gs[i]| <= |gs[j]| + 1 {
      assert |gs[i]| == SectionSize(|xs|, p, i) && |gs[j]| == SectionSize(|xs|, p, j);
    }
  }

  /** The section sizes: positive for the first min(p, n), zero after, and never more than one apart. */
  lemma SectionSizes(n: nat, p: nat)
    requires p >= 1
    ensures forall k :: 0 <= k < Min(p, n) ==> SectionSize(n, p, k) > 0
    ensures forall k :: Min(p, n) <= k < p ==> SectionSize(n, p, k) == 0
    ensures forall i, j :: 0 <= i < j < p ==>
              SectionSize(n, p, j) <= SectionSize(n, p, i) <= SectionSize(n, p, j) + 1
  {
    var q, r := n / p, n % p;
    if n < p {
      DivSmall(n, p);
    } else {
      DivLarge(n, p);
    }
    forall k | 0 <= k < Min(p, n) ensures SectionSize(n, p, k) > 0 {
    }
    forall k | Min(p, n) <= k < p ensures SectionSize(n, p, k) == 0 {
    }
    forall i, j | 0 <= i < j < p
      ensures SectionSize(n, p, j) <= SectionSize(n, p, i) <= SectionSize(n, p, j) + 1
    {
    }
  }

  lemma DivSmall(n: nat, p: nat)
    requires n < p
    ensures n / p == 0 && n % p == n
  {
  }

  lemma DivLarge(n: nat, p: nat)
    requires 1 <= p <= n
    ensures n / p >= 1
  {
    assert n == p * (n / p) + n % p;
  }

  lemma DropPrepend(template: seq<string>, gs: seq<seq<string>>)
    ensures Drop(|template|, Prepend(template, gs)) == gs
  {
    var cmds := Prepend(template, gs);
    forall i | 0 <= i < |gs| ensures Drop(|template|, cmds)[i] == gs[i] {
      assert cmds[i] == template + gs[i];
    }
  }

  /**
   * With `cpus` sections and N names there are min(cpus, N) commands; each
   * is the template followed by a non-empty group; the groups, read in
   * command order, are the names again; and group sizes differ by at most
   * one, the larger groups first.
   */
  lemma PartitionShape(template: seq<string>, names: seq<string>, cpus: nat)
    requires cpus >= 1
    ensures var cmds := Commands(template, names, cpus);
      && |cmds| == Min(cpus, |names|)
      && (forall i :: 0 <= i < |cmds| ==>
            |cmds[i]| > |template| && cmds[i][..|template|] == template)
      && Flatten(Drop(|template|, cmds)) == names
      && (forall i, j :: 0 <= i < j < |cmds| ==> |cmds[j]| <= |cmds[i]| <= |cmds[j]| + 1)
  {
    var gs := ArraySplit(names, cpus);
    SplitSurvivors(names, cpus);
    var survivors := NonEmpty(gs);
    DropPrepend(template, survivors);
    var cmds := Commands(template, names, cpus);
    assert forall i :: 0 <= i < |cmds| ==> cmds[i] == template + survivors[i];
  }

  lemma {:induction false} EmptySectionsFlatten<T>(gs: seq<seq<T>>)
    requires forall k :: 0 <= k < |gs| ==> |gs[k]| == 0
    ensures Flatten(gs) == []
  {
    if gs != [] {
      EmptySectionsFlatten(gs[1..]);
    }
  }

  /** The loop at the heart of the partitioner: one command for each non-empty section. */
  method Partition(template: seq<string>, names: seq<string>, cpus: nat)
    returns (cmds: seq<seq<string>>)
    requires cpus >= 1
    ensures cmds == Commands(template, names, cpus)
  {
    var sections := ArraySplit(names, cpus);
    cmds := [];
    for i := 0 to |sections|
      invariant cmds == Prepend(template, NonEmpty(sections[..i]))
    {
      assert sections[..i + 1][..i] == sections[..i];
      if |sections[i]| > 0 {
        cmds := cmds + [template + sections[i]];
      }
    }
    assert sections[..|sections|] == sections;
  }

  /** An empty name list gives no command at all. */
  lemma NoNamesNoCommands(template: seq<string>, cpus: nat)
    requires cpus >= 1
    ensures Commands(template, [], cpus) == []
  {
    PartitionShape(template, [], cpus);
  }

  /** A single path on a host with eight CPUs gives exactly one command. */
  lemma SinglePathEightCpus(show: Value -> string, template: seq<string>, path: string)
    ensures Commands(template, NameList(show, Single(path)), 8) == [template + [StripNuls(path)]]
  {
    var names := NameList(show, Single(path));
    var gs := ArraySplit(names, 8);
    SplitSurvivors(names, 8);
    assert Flatten(gs[..1]) == gs[0];
    assert NonEmpty(gs) == [names];
  }

  /** A trailing NUL never reaches the solver: the command names the file `a`. */
  lemma TrailingNulDropped(show: Value -> string, template: seq<string>)
    ensures Commands(template, NameList(show, Single("a\0")), 8) == [template + ["a"]]
  {
    SinglePathEightCpus(show, template, "a\0");
    assert "a\0"[..1] == "a";
    assert StripNuls("a") == "a";
  }

  /** Two images on two CPUs give two single-image commands, in input order. */
  lemma TwoImagesTwoCpus(show: Value -> string, template: seq<string>, a: string, b: string)
    requires |a| == 0 || a[|a| - 1] != '\0'
    requires |b| == 0 || b[|b| - 1] != '\0'
    ensures Commands(template, NameList(show, Many([Str(a), Str(b)])), 2) == [template + [a], template + [b]]
  {
    StripNulsKeeps(a);
    StripNulsKeeps(b);
    assert NameList(show, Many([Str(a), Str(b)])) == [a, b];
    var gs := ArraySplit([a, b], 2);
    SplitSurvivors([a, b], 2);
    assert |gs[0]| == 1 && |gs[1]| == 1;
    assert Flatten(gs[..2]) == gs[0] + gs[1];
    assert gs[0] == [a] && gs[1] == [b];
    assert NonEmpty(gs) == [[a], [b]];
  }
}
