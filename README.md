# solve_field, modelled in Dafny

This project models `solve_field` from the `astrometry` package, and the small `chunks` helper next to it. `solve_field` plate-solves a batch of FITS images by running astrometry.net's `solve-field` executable. The steps are:

1. Type-check the arguments.
2. Build a 21-token command prefix, followed by the optional `--ra`, `--dec`, `--radius` and scale flags.
3. Split the image names into one contiguous group per CPU, using numpy's `array_split` rule.
4. Run one command per non-empty group in a thread pool.
5. Collect the results: rename every `*.new` file to `<root><suffix>.fits`, return those names, and, unless `wcs_output` is set, run `rm` on every `*.wcs` file.

The model covers steps 1, 2, 3 and 5, and `chunks`. Step 4 is left out.

Modules:

- `Arguments` (arguments.dfy): Python argument values, the ordered type checks, and the validated request.
- `Command` (command.dfy): the command template, as a function and as a method that appends token by token.
- `Partition` (partition.dfy): `array_split` and the loop that builds one command per non-empty group.
- `Chunks` (chunks.dfy): `chunks(l, n)`.
- `Collect` (collect.dfy):
  - the working directory, as a class over a sequence of distinct names, with `rename` and `rm` as its methods;
  - the collector method with its two loops;
  - the closed form of the directory it leaves behind.
- `Solve` (solve.dfy): the pipeline as one method.
- `Wrappers` and `Seqs`: helpers.

The caller supplies some inputs as parameters:

- `show` stands for what `str()` gives for a non-string value. It is used for the radius, the scale bounds, and the non-str items of a name list that also holds a str: numpy turns every item of such a list into a str.
- `cpus` stands for `cpu_count()`.
- The `Directory` passed to `SolveField` is the working directory as the external jobs left it.

The model follows the code's behaviour, including what it leaves unchecked:

- An empty `name` list is accepted. It produces no command.
- `radius` must be a Python `float`; an `int` is rejected.
- `ra` and `dec` are only checked to be `str`. Their format is not checked.
- `scale` is only checked to be a tuple or a list. With fewer than two items, building the command raises IndexError. Items after the second are ignored.
- `suffix` may be empty.
- When the names do not split evenly, the larger groups come first.
- The solved image is the file with the extension `.new`.
- `glob` skips hidden names, so a name that starts with a dot is never renamed or deleted.
- `rm` is given each `*.wcs` name without `--` before it, so a name that starts with `-` stays (see "## Findings").

## Model

| member | source | states |
|---|---|---|
| `Arguments.Validate` | astrometry/core.py:84-104 | The result is Ok exactly when every parameter's type check passes; every error it returns is a TypeError. |
| `Arguments.ValidateReportsFirstFailure` | astrometry/core.py:84-104 | The checks run in the order name, ra, dec, radius, scale, suffix. Validation fails with a parameter's TypeError exactly when that check is the first to fail. |
| `Arguments.ValidateRoundTrip` | astrometry/core.py:84-104 | Validation loses nothing. It yields a request exactly for the arguments that request stands for. |
| `Arguments.IntRadiusRejected` | astrometry/core.py:95-97 | An int radius raises TypeError('radius') once name, ra and dec have passed. |
| `Arguments.DefaultsAccepted` | astrometry/core.py:28-29 | A call naming one path passes every check. It keeps the default suffix `_ast` with WCS output off, and every optional argument absent. |
| `Arguments.UncheckedShapesAccepted` | astrometry/core.py:84-101 | An empty name list and a scale tuple of any length both pass validation. |
| `Command.Template` | astrometry/core.py:106-126 | The template fails with IndexError exactly when a scale with fewer than two items was given. |
| `Command.TemplateLayout` | astrometry/core.py:106-126 | Every template starts with the fixed 21-token prefix. The ra, dec, radius and scale blocks follow at their offsets, each present iff its parameter is given. The scale block is `--scale-low s0 --scale-high s1 --scale-unit arcsecperpix`. The length is 21 + 2[ra] + 2[dec] + 2[radius] + 6[scale]. |
| `Command.BuildCommand` | astrometry/core.py:106-126 | The step-by-step appends build exactly the template, or raise IndexError on a short scale. |
| `Partition.NameList` | astrometry/core.py:128-129 | A lone path becomes a one-element list. A list gives one name per item. Every name loses its trailing NUL characters, as numpy's str arrays drop them, and is otherwise unchanged. `Partition.SinglePathEightCpus` shows the promotion at work. |
| `Partition.ArraySplit` | astrometry/core.py:132 | `array_split(xs, p)` gives p sections. The first \|xs\| % p sections have \|xs\|/p + 1 items and the rest have \|xs\|/p. Concatenated, the sections are xs again. |
| `Partition.SectionSizes` | astrometry/core.py:132 | Section sizes are positive for the first min(p, n) sections and zero after. Any two differ by at most one, the larger first. |
| `Partition.SplitSurvivors` | astrometry/core.py:132-134 | The non-empty sections are exactly the first min(p, n). They alone make up the names, and they are balanced. |
| `Partition.PartitionShape` | astrometry/core.py:128-134 | There are min(cpus, N) commands, each the template followed by a non-empty group. The groups in command order reproduce the names. Command lengths differ by at most one, the longer first. |
| `Partition.Partition` | astrometry/core.py:131-134 | The loop appends one command per non-empty section and yields exactly the specified commands. |
| `Partition.NoNamesNoCommands` | astrometry/core.py:131-134 | An empty name list yields no command. |
| `Partition.SinglePathEightCpus` | astrometry/core.py:128-134 | A lone path is promoted to a one-element list. On eight CPUs it yields exactly one command, the template plus that path without its trailing NULs. |
| `Partition.TrailingNulDropped` | astrometry/core.py:128-134 | The path `a\0` reaches its command as `a`. |
| `Partition.TwoImagesTwoCpus` | astrometry/core.py:128-134 | A list of two str names, neither ending in NUL, yields on two CPUs two single-image commands, in input order. |
| `Chunks.ChunksFromContents` | astrometry/core.py:24-25 | The slices from i on concatenate to l[i..]. All have length n except the last, which is non-empty and at most n long. |
| `Chunks.ChunksFromCount` | astrometry/core.py:24-25 | There is one slice per started group of n items from i on. |
| `Chunks.Chunks` | astrometry/core.py:21-25 | A zero step raises ValueError, shown as None. A negative step yields no chunk. |
| `Chunks.ChunksShape` | astrometry/core.py:21-25 | For n > 0 the chunks concatenate to l. Every chunk but the last has length n, and the last is non-empty. There are ceil(\|l\| / n) chunks. |
| `Collect.Glob` | astrometry/core.py:145 | `glob('*.x')` returns exactly the non-hidden entries ending in `.x`, without duplicates when the directory has none. |
| `Collect.GlobConcat` | astrometry/core.py:145 | `glob` keeps enumeration order: the matches of a directory listed in two parts are those of the first part, then those of the second. Since a one-entry directory globs to that entry exactly when it matches (`Collect.GlobOne`), this fixes the result order. |
| `Collect.RootOfNew` | astrometry/core.py:147 | `splitext` of a name matched by `*.new` drops exactly the `.new`. |
| `Collect.Root` | astrometry/core.py:147 | `os.path.splitext(name)[0]` is a prefix of the name. When it is shorter, it stops at the last dot, and some non-dot character comes before that dot. When it is the whole name, no dot follows a non-dot character, so a name of leading dots only has no extension. `Collect.RootOfNew` gives the `*.new` case. |
| `Collect.Target` | astrometry/core.py:147-148 | A `*.new` name is renamed to itself without `.new`, then the suffix, then `.fits`. The new name is never a `*.new` or `*.wcs` name. `Collect.TargetFacts` adds that distinct sources get distinct names. |
| `Collect.TargetFacts` | astrometry/core.py:147-148 | A rename target is never a `*.new` or `*.wcs` name. Distinct sources have distinct targets. |
| `Collect.Directory.Rename` | astrometry/core.py:150 | The source takes the new name, a file already named so is replaced, and names stay distinct. The rename never fails (see "## Left out"). |
| `Collect.RmDeleted` | astrometry/core.py:155 | Of the names given to `rm` one by one, the deleted ones are exactly those that do not start with `-` (or are at most one character long). |
| `Collect.Directory.Remove` | astrometry/core.py:155 | For a regular file: when `rm` takes the name as a file, the entry is gone and nothing else changes. A name that starts with `-` is read as options, and the directory is unchanged. Names stay distinct. |
| `Collect.RenameAll` | astrometry/core.py:144-150 | The rename loop returns the targets of the `*.new` files in order. It leaves each such file under its target, and a file already named like a target is replaced. |
| `Collect.RemoveAll` | astrometry/core.py:152-155 | The removal loop leaves exactly the entries not among the given names that `rm` deletes. |
| `Collect.Collect` | astrometry/core.py:144-157 | The two loops return exactly the targets of the `*.new` files in enumeration order. They leave exactly the collected directory. |
| `Collect.CollectedMembers` | astrometry/core.py:144-157 | After collection, a name is present iff it is a returned target, or an old entry that is not `*.new`; and, with WCS output off, it is not a `*.wcs` name that `rm` deletes. So no `*.new` remains and other entries stay. For regular files, a `*.wcs` entry stays iff WCS output is kept or its name starts with `-`. |
| `Collect.IntendedCollectedMembers` | astrometry/core.py:144-157 | With every `*.wcs` regular file removed as intended, a name is present iff it is a returned target or an old entry that is not `*.new`, and, with WCS output off, it is not `*.wcs`. |
| `Collect.CollectedAgrees` | astrometry/core.py:144-157 | When no `*.wcs` entry starts with `-`, the collector as written and the intended one leave the same directory. |
| `Collect.SecondRunFindsNothing` | astrometry/core.py:144-150 | Collecting the collected directory again returns an empty list. |
| `Collect.SecondRunIsNoOp` | astrometry/core.py:144-157 | Collecting the collected directory again leaves it unchanged, for any suffix, when the second run keeps WCS output or the first run did not. The case of a first run that kept WCS output and a second run that does not is not covered, even when there is no `*.wcs` file. |
| `Collect.NoWcsLeft` | astrometry/core.py:152-155 | With WCS output off and every entry a regular file, every name `glob('*.wcs')` finds afterwards starts with `-`. |
| `Collect.IntendedNoWcsLeft` | astrometry/core.py:152-155 | With WCS output off and every entry a regular file, the intended collector leaves nothing for `glob('*.wcs')` to find. |
| `Collect.DashWcsSurvives` | astrometry/core.py:152-155 | With WCS output off, a directory holding only `-a.wcs` keeps it, and the intended collector removes it. |
| `Collect.ResultNames` | astrometry/core.py:144-150 | The result has one entry per `*.new` file, in order: its name without `.new`, then the suffix, then `.fits`. No result is a `*.new` or `*.wcs` name. The results are distinct. |
| `Collect.RetentionExample` | astrometry/core.py:144-157 | One solved image gives one result. Its WCS file is deleted when WCS output is off and kept when it is on. |
| `Solve.SolveField` | astrometry/core.py:28-157 | A TypeError or IndexError returns before any command exists, with the directory untouched. Otherwise the commands are the partition of the names behind the template, and the result and the directory are those of collection. A rename that raises is not modelled (see `Collect.Directory.Rename` under "## Left out"). |

## Findings

| source | as written | input that shows it | evidently intended | confidence | as-written member | corrected member |
|---|---|---|---|---|---|---|
| astrometry/core.py:155 | Each globbed `*.wcs` name goes to `rm` with no `--` first, and the exit status is not checked. A name that starts with `-` is read as options, `rm` fails, and the file stays. | a directory entry `-a.wcs` with `wcs_output` off | every globbed `*.wcs` file is removed, as `rm -- name` would do | not executed | `Collect.DashWcsSurvives` | `Collect.IntendedNoWcsLeft` |

## Left out

- `worker` (astrometry/core.py:14-18) and the `solve-field` executable itself: they spawn external processes.
- The thread pool (astrometry/core.py:136-142): its point is concurrency. The model returns the list of commands that would be dispatched. The effect of the external jobs on the directory is not modelled; `SolveField` receives the directory as the jobs left it.
- `cpu_count()`: a parameter `cpus` of at least one takes its place.
- `str()` of floats and other non-string values: float formatting is out of scope. It is a caller-supplied rendering, and a string renders as itself.
- `Arguments.Value`: a Python float is a Dafny `real`, and any other type is `Other` with only its type name. So the set of values is smaller than Python's, and `show` cannot tell apart values that `str()` renders differently:
  - `float('nan')`, `float('inf')` and `float('-inf')` pass the radius check at astrometry/core.py:96 but have no `Float` value;
  - `-0.0` and `0.0` are both `Float(0.0)`, so one of them gets the wrong `--radius` token (astrometry/core.py:121);
  - `True` and `False` are both `Other("bool")`, so in `scale=(True, False)` or a name list such as `['a', True, False]` both render alike, where `str()` and numpy give `True` and `False`;
  - the same applies to the scale bounds (astrometry/core.py:124-125) and to non-str items of a name list that holds a str.
- numpy: only the `array_split` size rule is modelled, together with the str conversion of a name list that holds strs, possibly mixed with numbers. Other kinds of list pass validation but are not modelled:
  - A list of numbers with no str item, such as `[1, 2]`, stays numeric. A list holding `None` or other objects that are not path-like becomes an object array. In both cases the commands carry non-str items, `Popen` raises TypeError inside the worker, the pool swallows it, and that group is never solved.
  - A list of path-like objects, such as `[Path('a.fits'), Path('b.fits')]`, becomes an object array, and a list of bytes becomes a bytes array. `Popen` accepts both kinds of argument, so these groups do run the solver on their images. The model renders such items through `show(Other(typeName))`, so it cannot tell two of them apart (see the `Arguments.Value` line).
  - Where the model passes on rendered text for the items above, the program passes the items themselves.
  - A ragged nested list, such as `['a', ['b', 'c']]`, makes `np.array_split` (astrometry/core.py:132) raise ValueError before collection, so the directory stays untouched. The model instead partitions the rendered items and collects.
- File system: the directory is a sequence of distinct names in enumeration order, and every entry is a regular file. A renamed entry keeps its source's place in that order, even though a real file system may enumerate it elsewhere. Permission errors are not modelled, and neither is an entry that is a directory (see the two `Collect.Directory` lines below). `rm` is modelled as GNU or BSD `rm` parses its arguments: a name that starts with `-` is read as options and makes `rm` fail.
- `Partition.NameList`: two more cases are not modelled.
  - A rectangular nested list such as `[['a'], ['b']]` becomes a 2-D array whose rows reach `Popen` as arrays. `Popen` raises TypeError, which the pool swallows; the model passes on the `show` text of each item.
  - A NUL that is not trailing reaches `Popen`, which raises ValueError inside the worker; the model passes the name on.
- `os.path.splitext` is modelled for one path component. A `/` inside the suffix is not treated as a path separator.
- FITS headers and the astrometric meaning of ra, dec, radius and scale: they lie outside the code.
- `Collect.Directory.Remove`: every entry is modelled as a regular file. A subdirectory named like `d.wcs` is matched by `glob('*.wcs')`, but `rm d.wcs` has no `-r`, refuses it and fails unchecked, so the subdirectory stays; the model removes it. `Collect.CollectedMembers`, `Collect.NoWcsLeft`, `Collect.IntendedCollectedMembers`, `Collect.IntendedNoWcsLeft` and `Collect.SecondRunIsNoOp` state the leftover `*.wcs` entries for regular files only.
- `Collect.Directory.Rename`: every entry is modelled as a regular file. Renaming a `*.new` subdirectory onto an existing regular file raises NotADirectoryError, and renaming a file onto an existing directory raises IsADirectoryError; the model replaces the old entry in both cases. It also requires the source to exist, where the real `os.rename` would raise FileNotFoundError. The collector proves that every source it renames exists. Renaming can also fail on a target name that validation lets through, because `suffix` is only checked to be a str (astrometry/core.py:103):
  - a suffix holding a NUL character makes `os.rename` (astrometry/core.py:150) raise ValueError;
  - a suffix holding `/` whose directory part does not exist makes it raise FileNotFoundError;
  - a target longer than the file system's name limit makes it raise OSError.
  In each case, once a `*.new` file is present, `solve_field` ends with that exception: it returns no result and removes no `*.wcs` file. The model renames regardless, so `Collect.Collect` and `Solve.SolveField` return the renamed directory and `Ok` for these suffixes.
