/**
 * The result collector. After the pool has drained, every `*.new` file of
 * the working directory is renamed to `<root><suffix>.fits` and its new name
 * added to the result; then, unless WCS output was asked for, every `*.wcs`
 * file is removed.
 *
 * The working directory is a sequence of distinct names in the order the
 * file system enumerates them. `glob('*.x')` keeps, in that order, the names
 * that end in `.x` and do not start with a dot (glob skips hidden names).
 * Every entry is taken to be a regular file: `rm` without `-r` deletes it,
 * and `os.rename` can move it onto another file.
 */
module Collect {
  import opened Seqs

  const NEW_EXT: string := ".new"
  const WCS_EXT: string := ".wcs"
  const FITS_EXT: string := ".fits"

  /** The name is matched by the pattern `'*' + ext`. */
  predicate Matches(name: string, ext: string)
  {
    |name| > 0 && name[0] != '.' && EndsWith(name, ext)
  }

  /** `glob('*' + ext)`: exactly the matching entries, in enumeration order. */
  function Glob(entries: seq<string>, ext: string): (r: seq<string>)
    ensures forall x :: x in r <==> x in entries && Matches(x, ext)
    ensures Distinct(entries) ==> Distinct(r)
  {
    if entries == [] then []
    else
      var rest := Glob(entries[1..], ext);
      assert entries == [entries[0]] + entries[1..];
      if Matches(entries[0], ext) then
        assert ([entries[0]] + rest)[1..] == rest;
        [entries[0]] + rest
      else rest
  }

  /**
   * `glob` keeps enumeration order: the matches of a directory listed in two
   * parts are the matches of the first part followed by those of the second.
   */
  lemma {:induction false} GlobConcat(a: seq<string>, b: seq<string>, ext: string)
    ensures Glob(a + b, ext) == Glob(a, ext) + Glob(b, ext)
  {
    if a != [] {
      assert (a + b)[0] == a[0];
      assert (a + b)[1..] == a[1..] + b;
      GlobConcat(a[1..], b, ext);
    } else {
      assert a + b == b;
    }
  }

  /** A one-entry directory globs to that entry exactly when it matches. */
  lemma GlobOne(x: string, ext: string)
    ensures Glob([x], ext) == if Matches(x, ext) then [x] else []
  {
    assert [x][1..] == [];
  }

  /** The index of the last `c` in `s`, or -1 when there is none. */
  function LastIndex(s: string, c: char): (i: int)
    ensures -1 <= i < |s|
    ensures i >= 0 ==> s[i] == c
    ensures forall j :: i < j < |s| ==> s[j] != c
  {
    if s == [] then -1
    else if s[|s| - 1] == c then |s| - 1
    else LastIndex(s[..|s| - 1], c)
  }

  /**
   * `os.path.splitext(name)[0]` for a name without separators: the part
   * before the last dot, unless nothing but dots precedes that dot.
   */
  function Root(name: string): (r: string)
    ensures |r| <= |name| && r == name[..|r|]
    ensures r != name ==>
              && name[|r|] == '.'
              && (forall j :: |r| < j < |name| ==> name[j] != '.')
              && (exists j :: 0 <= j < |r| && name[j] != '.')
    ensures r == name ==> forall i, j :: 0 <= i < j < |name| && name[j] == '.' ==> name[i] == '.'
  {
    var dot := LastIndex(name, '.');
    if dot >= 0 && exists j :: 0 <= j < dot && name[j] != '.' then name[..dot] else name
  }

  /** A name that `*.new` matches loses exactly its `.new`. */
  lemma RootOfNew(name: string)
    requires Matches(name, NEW_EXT)
    ensures Root(name) == name[..|name| - 4]
  {
    var n := |name|;
    assert name[n - 4..] == ".new";
    assert name[n - 4] == '.' && name[n - 3] == 'n' && name[n - 2] == 'e' && name[n - 1] == 'w';
    assert n > 4;
    var dot := LastIndex(name, '.');
    assert dot == n - 4;
    assert 0 < dot && name[0] != '.';
  }

  /**
   * The name a `*.new` file is renamed to: the name without `.new`, then the
   * suffix, then `.fits`; it is never itself a `*.new` or `*.wcs` name.
   */
  function Target(name: string, suffix: string): (r: string)
    ensures Matches(name, NEW_EXT) ==> r == name[..|name| - 4] + suffix + FITS_EXT
    ensures !Matches(r, NEW_EXT) && !Matches(r, WCS_EXT)
  {
    EndsInFits(Root(name) + suffix);
    if Matches(name, NEW_EXT) then
      RootOfNew(name);
      Root(name) + suffix + FITS_EXT
    else
      Root(name) + suffix + FITS_EXT
  }

  lemma EndsInFits(a: string)
    ensures !Matches(a + FITS_EXT, NEW_EXT) && !Matches(a + FITS_EXT, WCS_EXT)
  {
    var t := a + FITS_EXT;
    assert t[|t| - 4..] == "fits";
  }

  /** Renaming targets are never `*.new` or `*.wcs` names, and distinct sources have distinct targets. */
  lemma TargetFacts(a: string, b: string, suffix: string)
    requires Matches(a, NEW_EXT) && Matches(b, NEW_EXT)
    ensures !Matches(Target(a, suffix), NEW_EXT) && !Matches(Target(a, suffix), WCS_EXT)
    ensures Target(a, suffix) == Target(b, suffix) ==> a == b
  {
    if Target(a, suffix) == Target(b, suffix) {
      CancelTail(a[..|a| - 4], b[..|b| - 4], suffix, FITS_EXT);
      SplitNew(a);
      SplitNew(b);
    }
  }

  lemma CancelTail(x: string, y: string, s: string, t: string)
    requires x + s + t == y + s + t
    ensures x == y
  {
    assert |x| == |y|;
    assert x == (x + s + t)[..|x|] && y == (y + s + t)[..|y|];
  }

  lemma SplitNew(a: string)
    requires Matches(a, NEW_EXT)
    ensures a == a[..|a| - 4] + NEW_EXT
  {
    assert a == a[..|a| - 4] + a[|a| - 4..];
  }

  /** The result list: one target per `*.new` name, in the same order. */
  function TargetsOf(srcs: seq<string>, suffix: string): seq<string>
  {
    seq(|srcs|, i requires 0 <= i < |srcs| => Target(srcs[i], suffix))
  }

  /** What the collector returns for a directory. */
  function Targets(entries: seq<string>, suffix: string): seq<string>
  {
    TargetsOf(Glob(entries, NEW_EXT), suffix)
  }

  // ----- the directory and its two operations -----

  /** `os.rename(src, dst)` on one entry: the source takes the new name and an old `dst` is replaced. */
  function RenamedEntry(e: string, src: string, dst: string): seq<string>
  {
    if e == src then [dst] else if e == dst then [] else [e]
  }

  function Renamed(entries: seq<string>, src: string, dst: string): seq<string>
  {
    if entries == [] then []
    else RenamedEntry(entries[0], src, dst) + Renamed(entries[1..], src, dst)
  }

  /** The entries without `name`. */
  function Removed(entries: seq<string>, name: string): seq<string>
  {
    if entries == [] then []
    else (if entries[0] == name then [] else [entries[0]]) + Removed(entries[1..], name)
  }

  lemma {:induction false} RenamedMembers(entries: seq<string>, src: string, dst: string, x: string)
    ensures x in Renamed(entries, src, dst) <==>
              (x == dst && src in entries) || (x in entries && x != src && x != dst)
  {
    if entries != [] {
      RenamedMembers(entries[1..], src, dst, x);
      assert entries == [entries[0]] + entries[1..];
    }
  }

  lemma {:induction false} RenamedDistinct(entries: seq<string>, src: string, dst: string)
    requires Distinct(entries)
    ensures Distinct(Renamed(entries, src, dst))
  {
    if entries != [] {
      var rest := Renamed(entries[1..], src, dst);
      RenamedDistinct(entries[1..], src, dst);
      var head := RenamedEntry(entries[0], src, dst);
      assert Renamed(entries, src, dst) == head + rest;
      if head == [] {
        assert head + rest == rest;
      } else {
        RenamedMembers(entries[1..], src, dst, head[0]);
        assert (head + rest)[1..] == rest;
      }
    }
  }

  lemma {:induction false} RemovedFacts(entries: seq<string>, name: string)
    ensures forall x :: x in Removed(entries, name) <==> x in entries && x != name
    ensures Distinct(entries) ==> Distinct(Removed(entries, name))
  {
    if entries != [] {
      RemovedFacts(entries[1..], name);
      assert entries == [entries[0]] + entries[1..];
      var rest := Removed(entries[1..], name);
      if entries[0] != name {
        assert ([entries[0]] + rest)[1..] == rest;
      } else {
        assert Removed(entries, name) == rest;
      }
    }
  }

  /** The working directory, as the pool's jobs left it. */
  class Directory {
    var entries: seq<string>

    predicate Valid()
      reads this
    {
      Distinct(entries)
    }

    constructor (entries: seq<string>)
      requires Distinct(entries)
      ensures Valid() && this.entries == entries
    {
      this.entries := entries;
    }

    /**
     * `os.rename(src, dst)` of a regular file; a missing source would raise
     * FileNotFoundError.
     */
    method Rename(src: string, dst: string)
      requires Valid() && src in entries
      modifies this
      ensures Valid()
      ensures entries == Renamed(old(entries), src, dst)
    {
      RenamedDistinct(entries, src, dst);
      entries := Renamed(entries, src, dst);
    }

    /**
     * `subprocess.run(['rm', name])` on a regular file: removes the entry if
     * it is there and `rm` takes the name as a file; otherwise `rm` fails,
     * and a failing `rm` raises nothing.
     */
    method Remove(name: string)
      requires Valid()
      modifies this
      ensures Valid()
      ensures entries == if RmOperand(name) then Removed(old(entries), name) else old(entries)
    {
      if RmOperand(name) {
        RemovedFacts(entries, name);
        entries := Removed(entries, name);
      }
    }
  }

  /**
   * Whether `rm name`, with no `--` before it, takes `name` as a file. An
   * argument that starts with `-` and is longer than `-` is read as a
   * cluster of options; for a name ending in `.wcs` the `.` is not an
   * option letter, so `rm` reports an error and deletes nothing.
   */
  predicate RmOperand(name: string)
  {
    |name| <= 1 || name[0] != '-'
  }

  /** The names of `names`, in order, that `rm` deletes when run on each of them. */
  function RmDeleted(names: seq<string>): (r: seq<string>)
    ensures forall x :: x in r <==> x in names && RmOperand(x)
  {
    if names == [] then []
    else
      var last := names[|names| - 1];
      assert names == names[..|names| - 1] + [last];
      RmDeleted(names[..|names| - 1]) + (if RmOperand(last) then [last] else [])
  }

  /** `rm` deletes nothing when it reads every name as options. */
  lemma {:induction false} RmDeletesNone(names: seq<string>)
    requires forall x :: x in names ==> !RmOperand(x)
    ensures RmDeleted(names) == []
  {
    if names != [] {
      var init, last := names[..|names| - 1], names[|names| - 1];
      assert names == init + [last];
      forall x | x in init
        ensures !RmOperand(x)
      {
        assert x in names;
      }
      RmDeletesNone(init);
    }
  }

  /** `rm` deletes every name when it takes every name as a file. */
  lemma {:induction false} RmDeletesAll(names: seq<string>)
    requires forall x :: x in names ==> RmOperand(x)
    ensures RmDeleted(names) == names
  {
    if names != [] {
      var init, last := names[..|names| - 1], names[|names| - 1];
      assert names == init + [last];
      forall x | x in init
        ensures RmOperand(x)
      {
        assert x in names;
      }
      RmDeletesAll(init);
    }
  }

  // ----- the directory after the collector, in closed form -----

  /** What becomes of entry `e` once every name in `srcs` has been renamed to its target. */
  function Settled(e: string, srcs: seq<string>, suffix: string): seq<string>
  {
    if e in srcs then [Target(e, suffix)]
    else if e in TargetsOf(srcs, suffix) then []
    else [e]
  }

  function AfterRenames(entries: seq<string>, srcs: seq<string>, suffix: string): seq<string>
  {
    if entries == [] then []
    else Settled(entries[0], srcs, suffix) + AfterRenames(entries[1..], srcs, suffix)
  }

  /** The entries not in `names`. */
  function Without(entries: seq<string>, names: seq<string>): seq<string>
  {
    if entries == [] then []
    else (if entries[0] in names then [] else [entries[0]]) + Without(entries[1..], names)
  }

  /** The directory after collection: every globbed `*.wcs` name that `rm` deletes is gone. */
  function Collected(entries: seq<string>, suffix: string, wcsOutput: bool): seq<string>
  {
    var renamed := AfterRenames(entries, Glob(entries, NEW_EXT), suffix);
    if wcsOutput then renamed else Without(renamed, RmDeleted(Glob(renamed, WCS_EXT)))
  }

  /**
   * The directory the collector is evidently meant to leave, with every
   * globbed `*.wcs` file removed, as `rm -- name` would do.
   */
  function IntendedCollected(entries: seq<string>, suffix: string, wcsOutput: bool): seq<string>
  {
    var renamed := AfterRenames(entries, Glob(entries, NEW_EXT), suffix);
    if wcsOutput then renamed else Without(renamed, Glob(renamed, WCS_EXT))
  }

  predicate AllNew(srcs: seq<string>)
  {
    forall s :: s in srcs ==> Matches(s, NEW_EXT)
  }

  lemma {:induction false} NoRenames(entries: seq<string>, suffix: string)
    ensures AfterRenames(entries, [], suffix) == entries
  {
    if entries != [] {
      NoRenames(entries[1..], suffix);
      assert entries == [entries[0]] + entries[1..];
    }
  }

  /** Renaming distributes over an entry put in front. */
  lemma RenamedCons(head: seq<string>, tail: seq<string>, src: string, dst: string)
    requires |head| <= 1
    ensures Renamed(head + tail, src, dst) == Renamed(head, src, dst) + Renamed(tail, src, dst)
  {
    if head == [] {
      assert head + tail == tail;
    } else {
      assert (head + tail)[1..] == tail;
      RenamedSingle(head[0], src, dst);
    }
  }

  /** One more rename takes the closed form for `srcs` to the closed form for `srcs + [s]`. */
  lemma {:induction false} RenameStep(entries: seq<string>, srcs: seq<string>, s: string, suffix: string)
    requires AllNew(srcs) && Matches(s, NEW_EXT) && s !in srcs
    ensures Renamed(AfterRenames(entries, srcs, suffix), s, Target(s, suffix))
            == AfterRenames(entries, srcs + [s], suffix)
  {
    if entries != [] {
      var e, t := entries[0], Target(s, suffix);
      var head, tail := Settled(e, srcs, suffix), AfterRenames(entries[1..], srcs, suffix);
      assert AfterRenames(entries, srcs, suffix) == head + tail;
      RenamedCons(head, tail, s, t);
      RenameStep(entries[1..], srcs, s, suffix);
      SettledStep(e, srcs, s, suffix);
    }
  }

  /** The same step for a single entry. */
  lemma SettledStep(e: string, srcs: seq<string>, s: string, suffix: string)
    requires AllNew(srcs) && Matches(s, NEW_EXT) && s !in srcs
    ensures Renamed(Settled(e, srcs, suffix), s, Target(s, suffix)) == Settled(e, srcs + [s], suffix)
  {
    var t, ts := Target(s, suffix), TargetsOf(srcs, suffix);
    FreshStep(srcs, s, suffix);
    RenamedSingle(e, s, t);
    if e in srcs {
      var te := Target(e, suffix);
      TargetFacts(e, s, suffix);
      TargetOfMember(srcs, e, suffix);
      RenamedSingle(te, s, t);
      assert Settled(e, srcs + [s], suffix) == [te];
    }
  }

  lemma RenamedSingle(e: string, src: string, dst: string)
    ensures Renamed([e], src, dst) == RenamedEntry(e, src, dst)
  {
    assert [e][1..] == [];
  }

  /**
   * What is known about the next source `s`: it is neither a source nor a
   * target so far, its target is neither a source nor a target so far, and
   * the targets grow by exactly its target.
   */
  lemma FreshStep(srcs: seq<string>, s: string, suffix: string)
    requires AllNew(srcs) && Matches(s, NEW_EXT) && s !in srcs
    ensures var t, ts := Target(s, suffix), TargetsOf(srcs, suffix);
      && TargetsOf(srcs + [s], suffix) == ts + [t]
      && s !in ts && t !in ts && t !in srcs && t != s
  {
    var t, ts := Target(s, suffix), TargetsOf(srcs, suffix);
    assert TargetsOf(srcs + [s], suffix) == ts + [t];
    NewIsNoTarget(srcs, s, suffix);
    TargetFacts(s, s, suffix);
    if t in ts {
      var i :| 0 <= i < |srcs| && ts[i] == t;
      assert srcs[i] in srcs;
      TargetFacts(srcs[i], s, suffix);
    }
  }

  lemma TargetOfMember(srcs: seq<string>, e: string, suffix: string)
    requires e in srcs
    ensures Target(e, suffix) in TargetsOf(srcs, suffix)
  {
    var i :| 0 <= i < |srcs| && srcs[i] == e;
    assert TargetsOf(srcs, suffix)[i] == Target(e, suffix);
  }

  lemma {:induction false} AfterRenamesMembers(entries: seq<string>, srcs: seq<string>, suffix: string, x: string)
    ensures x in AfterRenames(entries, srcs, suffix) <==>
              exists e :: e in entries && x in Settled(e, srcs, suffix)
  {
    if entries != [] {
      AfterRenamesMembers(entries[1..], srcs, suffix, x);
      assert entries == [entries[0]] + entries[1..];
      if x in Settled(entries[0], srcs, suffix) {
        assert entries[0] in entries;
      }
    }
  }

  /**
   * When every name in `srcs` is an entry's, an entry is there after the
   * renames exactly when it is a target, or it was there before and was
   * neither renamed nor replaced.
   */
  lemma RenamedDirectoryMembers(entries: seq<string>, srcs: seq<string>, suffix: string, x: string)
    requires forall s :: s in srcs ==> s in entries
    ensures x in AfterRenames(entries, srcs, suffix) <==>
              x in TargetsOf(srcs, suffix) || (x in entries && x !in srcs)
  {
    AfterRenamesMembers(entries, srcs, suffix, x);
    if x in TargetsOf(srcs, suffix) {
      var i :| 0 <= i < |srcs| && TargetsOf(srcs, suffix)[i] == x;
      assert srcs[i] in srcs;
      assert x in Settled(srcs[i], srcs, suffix);
    } else if x in entries && x !in srcs {
      assert x in Settled(x, srcs, suffix);
    }
    if x in AfterRenames(entries, srcs, suffix) {
      var e :| e in entries && x in Settled(e, srcs, suffix);
      SettledMembers(e, srcs, suffix, x);
    }
  }

  lemma SettledMembers(e: string, srcs: seq<string>, suffix: string, x: string)
    requires x in Settled(e, srcs, suffix)
    ensures x in TargetsOf(srcs, suffix) || (x == e && e !in srcs)
  {
    if e in srcs {
      TargetOfMember(srcs, e, suffix);
    }
  }

  lemma {:induction false} WithoutMembers(entries: seq<string>, names: seq<string>, x: string)
    ensures x in Without(entries, names) <==> x in entries && x !in names
  {
    if entries != [] {
      WithoutMembers(entries[1..], names, x);
      assert entries == [entries[0]] + entries[1..];
    }
  }

  lemma {:induction false} RemoveStep(entries: seq<string>, names: seq<string>, x: string)
    ensures Removed(Without(entries, names), x) == Without(entries, names + [x])
  {
    if entries != [] {
      RemoveStep(entries[1..], names, x);
      var e := entries[0];
      var rest := Without(entries[1..], names);
      if e in names {
        assert Without(entries, names) == rest;
      } else {
        assert Without(entries, names) == [e] + rest;
        assert ([e] + rest)[1..] == rest;
      }
    }
  }

  lemma {:induction false} WithoutNothing(entries: seq<string>)
    ensures Without(entries, []) == entries
  {
    if entries != [] {
      WithoutNothing(entries[1..]);
      assert entries == [entries[0]] + entries[1..];
    }
  }

  /**
   * The collector, as `solve_field` runs it: rename the `*.new` files one by
   * one while recording their new names, then, unless WCS output is kept,
   * remove the `*.wcs` files one by one.
   */
  method Collect(dir: Directory, suffix: string, wcsOutput: bool) returns (result: seq<string>)
    requires dir.Valid()
    modifies dir
    ensures dir.Valid()
    ensures result == Targets(old(dir.entries), suffix)
    ensures dir.entries == Collected(old(dir.entries), suffix, wcsOutput)
  {
    result := RenameAll(dir, suffix);
    if !wcsOutput {
      var wcss := Glob(dir.entries, WCS_EXT);
      RemoveAll(dir, wcss);
    }
  }

  /** The first loop: every `*.new` file renamed to its target, the targets returned in order. */
  method RenameAll(dir: Directory, suffix: string) returns (result: seq<string>)
    requires dir.Valid()
    modifies dir
    ensures dir.Valid()
    ensures result == Targets(old(dir.entries), suffix)
    ensures dir.entries == AfterRenames(old(dir.entries), Glob(old(dir.entries), NEW_EXT), suffix)
  {
    ghost var start := dir.entries;
    result := [];
    var imgs := Glob(dir.entries, NEW_EXT);
    NoRenames(start, suffix);
    for i := 0 to |imgs|
      invariant dir.Valid()
      invariant result == TargetsOf(imgs[..i], suffix)
      invariant dir.entries == AfterRenames(start, imgs[..i], suffix)
    {
      var img := imgs[i];
      var base := Root(img);
      var filename := base + suffix + FITS_EXT;
      result := result + [filename];
      RenameNext(start, imgs, i, suffix);
      dir.Rename(img, filename);
    }
    assert imgs[..|imgs|] == imgs;
  }

  /** The second loop: `rm` run on every name in `names`, removing those it takes as files. */
  method RemoveAll(dir: Directory, names: seq<string>)
    requires dir.Valid()
    modifies dir
    ensures dir.Valid()
    ensures dir.entries == Without(old(dir.entries), RmDeleted(names))
  {
    ghost var start := dir.entries;
    WithoutNothing(start);
    for i := 0 to |names|
      invariant dir.Valid()
      invariant dir.entries == Without(start, RmDeleted(names[..i]))
    {
      assert names[..i + 1][..i] == names[..i];
      assert RmDeleted(names[..i + 1])
             == RmDeleted(names[..i]) + (if RmOperand(names[i]) then [names[i]] else []);
      if RmOperand(names[i]) {
        RemoveStep(start, RmDeleted(names[..i]), names[i]);
      } else {
        assert RmDeleted(names[..i + 1]) == RmDeleted(names[..i]);
      }
      dir.Remove(names[i]);
    }
    assert names[..|names|] == names;
  }

  /** The loop's step: the next `*.new` name is still there, and renaming it extends the closed form by one. */
  lemma RenameNext(start: seq<string>, imgs: seq<string>, i: nat, suffix: string)
    requires Distinct(start) && imgs == Glob(start, NEW_EXT) && i < |imgs|
    ensures imgs[i] in AfterRenames(start, imgs[..i], suffix)
    ensures Renamed(AfterRenames(start, imgs[..i], suffix), imgs[i], Target(imgs[i], suffix))
            == AfterRenames(start, imgs[..i + 1], suffix)
    ensures TargetsOf(imgs[..i + 1], suffix) == TargetsOf(imgs[..i], suffix) + [Target(imgs[i], suffix)]
  {
    var img, done := imgs[i], imgs[..i];
    GlobPrefix(start, imgs, i);
    assert imgs[..i + 1] == done + [img];
    RenameStep(start, done, img, suffix);
    StillThere(start, done, img, suffix);
    FreshStep(done, img, suffix);
  }

  /** The names already renamed are `*.new` names, and the next one is a new `*.new` entry. */
  lemma GlobPrefix(start: seq<string>, imgs: seq<string>, i: nat)
    requires Distinct(start) && imgs == Glob(start, NEW_EXT) && i < |imgs|
    ensures AllNew(imgs[..i]) && Matches(imgs[i], NEW_EXT)
    ensures imgs[i] in start && imgs[i] !in imgs[..i]
  {
    assert imgs[i] in imgs;
    forall s | s in imgs[..i] ensures Matches(s, NEW_EXT) {
      assert s in imgs;
    }
    DistinctAt(imgs, i);
  }

  /** A `*.new` entry not yet renamed is still in the directory. */
  lemma StillThere(start: seq<string>, done: seq<string>, img: string, suffix: string)
    requires AllNew(done) && Matches(img, NEW_EXT) && img in start && img !in done
    ensures img in AfterRenames(start, done, suffix)
  {
    NewIsNoTarget(done, img, suffix);
    AfterRenamesMembers(start, done, suffix, img);
    assert img in Settled(img, done, suffix);
  }

  lemma NewIsNoTarget(srcs: seq<string>, x: string, suffix: string)
    requires AllNew(srcs) && Matches(x, NEW_EXT)
    ensures x !in TargetsOf(srcs, suffix)
  {
  }

  lemma {:induction false} DistinctAt<T>(s: seq<T>, i: nat)
    requires Distinct(s) && i < |s|
    ensures s[i] !in s[..i]
  {
    if i > 0 {
      DistinctAt(s[1..], i - 1);
      assert s[..i] == [s[0]] + s[1..][..i - 1];
    }
  }

  // ----- what collection promises -----

  lemma TargetsAreNotMatched(srcs: seq<string>, suffix: string, x: string)
    requires AllNew(srcs) && x in TargetsOf(srcs, suffix)
    ensures !Matches(x, NEW_EXT) && !Matches(x, WCS_EXT)
  {
    var k :| 0 <= k < |srcs| && TargetsOf(srcs, suffix)[k] == x;
    TargetFacts(srcs[k], srcs[k], suffix);
  }

  /**
   * After collection a name is in the directory exactly when it is one of
   * the returned targets or an entry that was not a `*.new` file, and, when
   * WCS output is not kept, it is not a `*.wcs` name. So every target
   * exists, no `*.new` file is left, other entries stay, and `*.wcs`
   * entries stay exactly when WCS output is kept, except that a `*.wcs`
   * name starting with `-` also stays, because `rm` fails on it.
   */
  lemma CollectedMembers(entries: seq<string>, suffix: string, wcsOutput: bool, x: string)
    ensures x in Collected(entries, suffix, wcsOutput) <==>
              && (x in Targets(entries, suffix) || (x in entries && !Matches(x, NEW_EXT)))
              && (wcsOutput || !Matches(x, WCS_EXT) || !RmOperand(x))
  {
    var srcs := Glob(entries, NEW_EXT);
    var renamed := AfterRenames(entries, srcs, suffix);
    RenamedDirectoryMembers(entries, srcs, suffix, x);
    if x in TargetsOf(srcs, suffix) {
      TargetsAreNotMatched(srcs, suffix, x);
    }
    if !wcsOutput {
      WithoutMembers(renamed, RmDeleted(Glob(renamed, WCS_EXT)), x);
    }
  }

  /** `CollectedMembers` for the intended collector: with WCS output off, no `*.wcs` name stays. */
  lemma IntendedCollectedMembers(entries: seq<string>, suffix: string, wcsOutput: bool, x: string)
    ensures x in IntendedCollected(entries, suffix, wcsOutput) <==>
              && (x in Targets(entries, suffix) || (x in entries && !Matches(x, NEW_EXT)))
              && (wcsOutput || !Matches(x, WCS_EXT))
  {
    var srcs := Glob(entries, NEW_EXT);
    var renamed := AfterRenames(entries, srcs, suffix);
    RenamedDirectoryMembers(entries, srcs, suffix, x);
    if x in TargetsOf(srcs, suffix) {
      TargetsAreNotMatched(srcs, suffix, x);
    }
    if !wcsOutput {
      WithoutMembers(renamed, Glob(renamed, WCS_EXT), x);
    }
  }

  /** A second collection over the collected directory finds no `*.new` file and returns nothing. */
  lemma SecondRunFindsNothing(entries: seq<string>, suffix: string, wcsOutput: bool, suffix2: string)
    ensures Targets(Collected(entries, suffix, wcsOutput), suffix2) == []
  {
    var after := Collected(entries, suffix, wcsOutput);
    var again := Glob(after, NEW_EXT);
    if again != [] {
      var x := again[0];
      assert x in again;
      CollectedMembers(entries, suffix, wcsOutput, x);
      if x in Targets(entries, suffix) {
        TargetsAreNotMatched(Glob(entries, NEW_EXT), suffix, x);
      }
    }
  }

  /**
   * A second collection over the collected directory changes nothing,
   * unless it is asked to remove `*.wcs` files the first one kept.
   */
  lemma SecondRunIsNoOp(entries: seq<string>, suffix: string, wcsOutput: bool, suffix2: string, wcsOutput2: bool)
    requires wcsOutput2 || !wcsOutput
    ensures Collected(Collected(entries, suffix, wcsOutput), suffix2, wcsOutput2)
            == Collected(entries, suffix, wcsOutput)
  {
    var after := Collected(entries, suffix, wcsOutput);
    SecondRunFindsNothing(entries, suffix, wcsOutput, suffix2);
    assert |Glob(after, NEW_EXT)| == |Targets(after, suffix2)| == 0;
    NoRenames(after, suffix2);
    if !wcsOutput2 {
      NoWcsLeft(entries, suffix);
      var gone := RmDeleted(Glob(after, WCS_EXT));
      RmDeletesNone(Glob(after, WCS_EXT));
      WithoutNothing(after);
      assert Collected(after, suffix2, false) == Without(after, gone);
    }
  }

  /** With WCS output off, every `*.wcs` name left is one `rm` reads as options. */
  lemma NoWcsLeft(entries: seq<string>, suffix: string)
    ensures forall x :: x in Glob(Collected(entries, suffix, false), WCS_EXT) ==> !RmOperand(x)
  {
    forall x | x in Glob(Collected(entries, suffix, false), WCS_EXT)
      ensures !RmOperand(x)
    {
      CollectedMembers(entries, suffix, false, x);
    }
  }

  /** With WCS output off, the intended collector leaves no `*.wcs` name. */
  lemma IntendedNoWcsLeft(entries: seq<string>, suffix: string)
    ensures Glob(IntendedCollected(entries, suffix, false), WCS_EXT) == []
  {
    var after := IntendedCollected(entries, suffix, false);
    var left := Glob(after, WCS_EXT);
    if left != [] {
      assert left[0] in left;
      IntendedCollectedMembers(entries, suffix, false, left[0]);
    }
  }

  /**
   * The collector as written and the intended one agree on every directory
   * with no `*.wcs` name starting with `-`.
   */
  lemma CollectedAgrees(entries: seq<string>, suffix: string, wcsOutput: bool)
    requires forall x :: x in entries && Matches(x, WCS_EXT) ==> RmOperand(x)
    ensures Collected(entries, suffix, wcsOutput) == IntendedCollected(entries, suffix, wcsOutput)
  {
    var srcs := Glob(entries, NEW_EXT);
    var renamed := AfterRenames(entries, srcs, suffix);
    var wcss := Glob(renamed, WCS_EXT);
    forall x | x in wcss
      ensures RmOperand(x)
    {
      RenamedDirectoryMembers(entries, srcs, suffix, x);
      if x in TargetsOf(srcs, suffix) {
        TargetsAreNotMatched(srcs, suffix, x);
      }
    }
    RmDeletesAll(wcss);
  }

  /** The collector as written removes nothing when the only `*.wcs` file is `-a.wcs`; the intended one removes it. */
  lemma DashWcsSurvives()
    ensures Collected(["-a.wcs"], "_ast", false) == ["-a.wcs"]
    ensures IntendedCollected(["-a.wcs"], "_ast", false) == []
  {
    var es := ["-a.wcs"];
    assert !Matches("-a.wcs", NEW_EXT) && Matches("-a.wcs", WCS_EXT);
    assert Glob(es, NEW_EXT) == [];
    NoRenames(es, "_ast");
    assert Glob(es, WCS_EXT) == es;
    assert !RmOperand("-a.wcs");
    assert RmDeleted(es) == [];
    WithoutNothing(es);
    assert Without(es, es) == [];
  }

  /**
   * The result has one entry per `*.new` file, in enumeration order: its
   * name without `.new`, then the suffix, then `.fits`. No result is a
   * `*.new` or `*.wcs` name, and distinct sources give distinct results.
   */
  lemma ResultNames(entries: seq<string>, suffix: string)
    ensures var srcs, r := Glob(entries, NEW_EXT), Targets(entries, suffix);
      && |r| == |srcs|
      && (forall i :: 0 <= i < |r| ==>
            Matches(srcs[i], NEW_EXT) && r[i] == srcs[i][..|srcs[i]| - 4] + suffix + FITS_EXT)
      && (forall x :: x in r ==> !Matches(x, NEW_EXT) && !Matches(x, WCS_EXT))
      && (Distinct(entries) ==> Distinct(r))
  {
    var srcs, r := Glob(entries, NEW_EXT), Targets(entries, suffix);
    forall i | 0 <= i < |r|
      ensures Matches(srcs[i], NEW_EXT) && r[i] == srcs[i][..|srcs[i]| - 4] + suffix + FITS_EXT
    {
      assert srcs[i] in srcs;
      RootOfNew(srcs[i]);
    }
    forall x | x in r ensures !Matches(x, NEW_EXT) && !Matches(x, WCS_EXT) {
      TargetsAreNotMatched(srcs, suffix, x);
    }
    if Distinct(entries) {
      TargetsOfDistinct(srcs, suffix);
    }
  }

  lemma {:induction false} TargetsOfDistinct(srcs: seq<string>, suffix: string)
    requires AllNew(srcs) && Distinct(srcs)
    ensures Distinct(TargetsOf(srcs, suffix))
  {
    if srcs != [] {
      var ts := TargetsOf(srcs, suffix);
      assert ts[1..] == TargetsOf(srcs[1..], suffix);
      assert AllNew(srcs[1..]) by {
        forall s | s in srcs[1..] ensures Matches(s, NEW_EXT) { assert s in srcs; }
      }
      TargetsOfDistinct(srcs[1..], suffix);
      if ts[0] in ts[1..] {
        var k :| 0 <= k < |srcs| - 1 && ts[1..][k] == ts[0];
        assert srcs[1..][k] in srcs;
        TargetFacts(srcs[0], srcs[1..][k], suffix);
      }
    }
  }

  /**
   * One solved image beside its input: a single result either way; the WCS
   * file is gone when WCS output is off and still there when it is on.
   */
  lemma RetentionExample()
    ensures Targets(["img.fits", "img.new", "img.wcs"], "_ast") == ["img_ast.fits"]
    ensures Collected(["img.fits", "img.new", "img.wcs"], "_ast", false) == ["img.fits", "img_ast.fits"]
    ensures Collected(["img.fits", "img.new", "img.wcs"], "_ast", true)
            == ["img.fits", "img_ast.fits", "img.wcs"]
  {
    ExampleGlob();
    ExampleTarget();
    assert TargetsOf(["img.new"], "_ast") == ["img_ast.fits"];
    ExampleRenamed();
    ExampleRemoved();
  }

  lemma ExampleGlob()
    ensures Glob(["img.fits", "img.new", "img.wcs"], NEW_EXT) == ["img.new"]
  {
    assert !Matches("img.fits", NEW_EXT) && Matches("img.new", NEW_EXT) && !Matches("img.wcs", NEW_EXT);
    GlobOne("img.fits", NEW_EXT);
    GlobOne("img.new", NEW_EXT);
    GlobOne("img.wcs", NEW_EXT);
    GlobConcat(["img.fits"], ["img.new"], NEW_EXT);
    GlobConcat(["img.fits", "img.new"], ["img.wcs"], NEW_EXT);
  }

  lemma ExampleTarget()
    ensures Target("img.new", "_ast") == "img_ast.fits"
  {
    assert Matches("img.new", NEW_EXT);
    RootOfNew("img.new");
    assert "img.new"[..3] == "img";
    assert "img" + "_ast" + FITS_EXT == "img_ast.fits";
  }

  lemma ExampleRenamed()
    ensures AfterRenames(["img.fits", "img.new", "img.wcs"], ["img.new"], "_ast")
            == ["img.fits", "img_ast.fits", "img.wcs"]
  {
    var es := ["img.fits", "img.new", "img.wcs"];
    ExampleTarget();
    assert TargetsOf(["img.new"], "_ast") == ["img_ast.fits"];
    assert "img.fits" != "img.new" && "img.fits" != "img_ast.fits";
    assert "img.wcs" != "img.new" && "img.wcs" != "img_ast.fits";
    assert Settled("img.fits", ["img.new"], "_ast") == ["img.fits"];
    assert Settled("img.new", ["img.new"], "_ast") == ["img_ast.fits"];
    assert Settled("img.wcs", ["img.new"], "_ast") == ["img.wcs"];
    assert es[1..] == ["img.new", "img.wcs"] && es[1..][1..] == ["img.wcs"];
    assert AfterRenames(["img.wcs"], ["img.new"], "_ast") == ["img.wcs"];
  }

  lemma ExampleRemoved()
    ensures Glob(["img.fits", "img_ast.fits", "img.wcs"], WCS_EXT) == ["img.wcs"]
    ensures RmDeleted(["img.wcs"]) == ["img.wcs"]
    ensures Without(["img.fits", "img_ast.fits", "img.wcs"], ["img.wcs"]) == ["img.fits", "img_ast.fits"]
  {
    assert RmOperand("img.wcs");
    assert ["img.wcs"][..0] == [];
    assert !Matches("img.fits", WCS_EXT) && !Matches("img_ast.fits", WCS_EXT) && Matches("img.wcs", WCS_EXT);
    GlobOne("img.fits", WCS_EXT);
    GlobOne("img_ast.fits", WCS_EXT);
    GlobOne("img.wcs", WCS_EXT);
    GlobConcat(["img.fits"], ["img_ast.fits"], WCS_EXT);
    GlobConcat(["img.fits", "img_ast.fits"], ["img.wcs"], WCS_EXT);
    assert Without(["img.wcs"], ["img.wcs"]) == [];
  }
}
