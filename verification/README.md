# Plymouth theme manager — a Dafny model of its theme logic

The theme manager is a small GTK application. It lists the boot-splash
(Plymouth) themes installed on a Linux system, imports new ones from ZIP
archives and makes one of them the default. Nearly all of it is user
interface. This project models the three pieces of real decision logic in
`plymouth-theme-manager.py` and proves properties about them:

- **the theme scanner** `get_theme_dirs`. It walks the two installation roots
  `/usr/share/plymouth/themes` and `/lib/plymouth/themes` in that order. It
  drops the protected fallback themes `text`, `ubuntu-text`, `details` and
  `script` (compared lower-cased), and drops anything that is not a
  directory. It keeps a directory only when it holds a `*.plymouth`
  descriptor and a `*.png`/`*.jpg`/`*.jpeg`/`*.svg` image. The result is
  `(name, path)` pairs sorted stably by lower-cased name.
- **the import planner**, the post-extraction part of `import_theme`. It
  walks the extracted tree top-down and plans one `pkexec cp -r <dir>
  /usr/share/plymouth/themes/` for the first directory that directly holds a
  descriptor. If there is none, it plans nothing.
- **the apply planner** `apply_theme`. If
  `/usr/share/plymouth/themes/<t>/<t>.plymouth` exists, it plans
  `pkexec update-alternatives --set default.plymouth <file>` and then
  `pkexec update-initramfs -u`. Otherwise it plans nothing.

The filesystem is an immutable snapshot (`Scanner.FileSystem`). It maps each
existing root to its listing. Each entry has a name, a directory flag and its
own listing. Commands are returned as argument vectors instead of being run.
"Does this path exist" is passed to the apply planner as a predicate.

Files:

- `wrappers.dfy`: `Option` and `Result`.
- `strings.dfy`: ASCII lower-casing, suffix and prefix tests, and Python's
  string order `LexLe` with the lemmas that make it a total order.
- `sorting.dfy`: `sorted(key=...)` as a stable insertion sort. It proves
  sortedness, permutation and stability.
- `scanner.dfy`: `get_theme_dirs`, error-free reference definitions of what
  it should find, and the soundness, completeness, exclusion, ordering and
  failure lemmas.
- `commands.dfy`: the import and apply planners. It also holds lemmas that
  show where the apply planner and the scanner disagree.

## Behaviour worth knowing

- `get_theme_dirs` catches no exceptions. A root that exists but cannot be
  listed ends the whole scan with an error. So does a non-excluded directory
  inside a root whose listing fails. `Scanner.ScanError` models this.
- `import_theme` copies the found directory as a whole with `cp -r`. It does
  not derive a theme name from the descriptor and does not create the target
  directory first.
- `apply_theme` runs `update-alternatives --set` and checks no exit status.

## Model

| member | source | states |
|---|---|---|
| `Sorting.Insert` | plymouth-theme-manager.py:75 | Inserting into a key-sorted sequence keeps it sorted. The result holds the old elements plus the new one. |
| `Sorting.SortByKey` | plymouth-theme-manager.py:75 | The sort's output is ordered by key and is a permutation of its input. |
| `Sorting.SortStable` | plymouth-theme-manager.py:75 | The sort is stable. For every key, the elements with that key appear in their input order. |
| `Sorting.AdjacentSortedIsSorted` | plymouth-theme-manager.py:75 | Ordered neighbours imply that every pair is ordered, given that string comparison is transitive. |
| `Strings.Lower` | plymouth-theme-manager.py:49-50 | The lower-cased name has the same length, contains no upper-case ASCII letter, and differs from the name only where an upper-case ASCII letter became its lower-case form. |
| `Strings.LowerIdempotent` | plymouth-theme-manager.py:75 | Lower-casing an already lower-cased key changes nothing. |
| `Strings.LexLeTotal` | plymouth-theme-manager.py:75 | Any two sort keys are comparable, so sorting by lower-cased name is well defined. |
| `Strings.LexLeAntisymmetric` | plymouth-theme-manager.py:75 | Two keys that are each at most the other are equal, so "equal keys" means equal lower-cased names. |
| `Scanner.ScanEntriesOutcome` | plymouth-theme-manager.py:47-73 | The loop over one root fails exactly when some non-excluded directory's listing fails. Otherwise it returns the accepted entries in listing order. |
| `Scanner.ScanRootsOutcome` | plymouth-theme-manager.py:43-73 | The loop over the roots fails exactly when some existing root fails. Otherwise it returns the discovery order, root by root. Missing roots contribute nothing. |
| `Scanner.AcceptedUnderMembers` | plymouth-theme-manager.py:49-73 | A theme is found under a root exactly when an accepted entry of that root is reported as it. |
| `Scanner.DiscoveryMembers` | plymouth-theme-manager.py:43-73 | A theme is in the discovery order exactly when some root has an accepted entry reported as it. |
| `Scanner.GetThemeDirsFails` | plymouth-theme-manager.py:43-65 | The scan raises exactly when an existing root, or a non-excluded directory in one, cannot be listed. Excluded names and non-directories never cause an error. |
| `Scanner.GetThemeDirsExcludes` | plymouth-theme-manager.py:49-50 | No returned name, lower-cased, is `text`, `ubuntu-text`, `details` or `script`, whatever the directory holds. |
| `Scanner.GetThemeDirsSound` | plymouth-theme-manager.py:52-73 | Every returned theme is a directory entry of an existing root. Its path is that root joined with its name. Its listing holds a name ending in `.plymouth` and one ending in an image extension, matched case-sensitively. |
| `Scanner.GetThemeDirsComplete` | plymouth-theme-manager.py:43-73 | Every non-excluded directory of an existing root that has a descriptor and an image is returned. |
| `Scanner.GetThemeDirsOrdered` | plymouth-theme-manager.py:75 | The result is sorted by lower-cased name and is a permutation of the discovery order, so duplicates are kept. Themes with equal keys stay in discovery order. |
| `Scanner.ExampleBundleBesideProtected` | plymouth-theme-manager.py:49-75 | A valid bundle next to a protected theme gives exactly the bundle, under the first root's path. |
| `Scanner.ExampleDuplicatesAcrossRoots` | plymouth-theme-manager.py:43-75 | The same bundle under both roots is reported twice, and the first root's copy comes first. |
| `Scanner.ExampleReordered` | plymouth-theme-manager.py:75 | Two bundles listed out of key order come back swapped. |
| `Scanner.ExampleCaseInsensitiveKeys` | plymouth-theme-manager.py:75 | `Zed` sorts after `alpha` by lower-cased key, though it sorts before it by plain code points. |
| `Scanner.ExampleProtectedAnyCase` | plymouth-theme-manager.py:49-50 | `text`, `Text` and `UBUNTU-TEXT` are protected. `texts` is not. |
| `Scanner.ExampleSuffixCaseSensitive` | plymouth-theme-manager.py:57-70 | `foo.PLYMOUTH` is not a descriptor and `bg.PNG` is not an image. |
| `Commands.FirstDescriptorDir` | plymouth-theme-manager.py:116-119 | It returns the least index of a walked directory whose own files include a `.plymouth` file, or none when no such directory exists. |
| `Commands.PlanImport` | plymouth-theme-manager.py:116-129 | The import plans no command exactly when no walked directory holds a descriptor. Otherwise it plans one copy, of the first such directory, into the installation root. |
| `Commands.ImportStopsAtFirstMatch` | plymouth-theme-manager.py:119-129 | Once a match is found, directories walked after it do not change the plan. |
| `Commands.ImportSkipsNonThemes` | plymouth-theme-manager.py:116-119 | Directories without a descriptor walked first do not change the plan. |
| `Commands.DescriptorThemeRoundTrip` | plymouth-theme-manager.py:82 | The descriptor path `<root>/<t>/<t>.plymouth` can be read back to `t`. |
| `Commands.ThemeFileInjective` | plymouth-theme-manager.py:82 | Distinct theme names give distinct descriptor paths. |
| `Commands.PlanApply` | plymouth-theme-manager.py:80-102 | Nothing is planned exactly when the descriptor path is absent. Otherwise there are two commands. The first registers an existing file that reads back to the requested theme. The second always rebuilds the initramfs, whatever the first one's exit status. |
| `Commands.ApplyNeedsDescriptorNamedAfterDirectory` | plymouth-theme-manager.py:82-86 | A bundle alone under the first root is listed by the scanner. When every listed name counts as existing, its apply plan is non-empty exactly when it lists `<name>.plymouth`; any other descriptor name leaves apply with nothing to do. |
| `Commands.ApplyIgnoresSecondRoot` | plymouth-theme-manager.py:82-86 | A bundle found only under `/lib/plymouth/themes` is listed, but apply plans nothing for it. |

## Left out

- The GTK user interface: the `ThemeManager` application, its windows, dialogs and list rows. This is presentation, not logic.
- Background threads and the marshalling of results back to the UI thread. Concurrency is not modelled.
- `download_and_install` and the HTTP download. This is network I/O through a foreign library.
- `fetch_online_themes`. It reads a local JSON file and returns an empty list on any error; this is file I/O.
- ZIP extraction and the temporary directory in `import_theme`. The model starts from the extracted tree, given as its top-down walk. An archive that cannot be opened raises before any walk; this error path is not modelled.
- Running the planned commands, their exit status and their effect on disk. In particular, the model does not say where `cp -r` places the copied directory.
- The "Theme file missing" message printed by `apply_theme`. It is output only.
- `install.py`, which detects a package manager and shells out to it.
- `Strings.Lower`: models only ASCII lower-casing. Python's `str.lower()` also folds non-ASCII letters, so a non-ASCII name may compare differently.
- `Scanner.Entry`: names are sequences of Unicode scalar values. A listing name holding undecodable bytes, which Python represents with a lone surrogate, cannot be represented.
- `Commands.ApplyNeedsDescriptorNamedAfterDirectory`: takes every listed name to exist. `os.path.exists` is false for a dangling symbolic link, and for a name inside a directory without search permission, so in those cases apply plans nothing although the name is listed.
- `Commands.PlanApply`: ignores only exit statuses. If the first command cannot be started at all (for example, `pkexec` is missing), `subprocess.run` raises and the second command is never issued; this exception path is not modelled.
- `Scanner.Join`: models `os.path.join` as `base + "/" + name`. This is exact for names produced by a directory listing, which contain no `/`, but the model does not require that.
