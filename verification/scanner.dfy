/** The theme scanner `get_theme_dirs`: it walks the installation roots in
    order, keeps every directory that looks like a boot-splash theme bundle,
    and returns `(name, path)` pairs sorted case-insensitively by name. */
module Scanner {
  import opened Wrappers
  import opened Strings
  import opened Sorting

  /** The installation roots, scanned in this order. */
  const ThemePaths: seq<string> := ["/usr/share/plymouth/themes", "/lib/plymouth/themes"]

  /** System fallback themes that are never listed, compared lower-cased. */
  const ExcludedThemes: set<string> := {"text", "ubuntu-text", "details", "script"}

  /** Extension of a theme's descriptor file. */
  const DescriptorSuffix: string := ".plymouth"

  /** Extensions that count as a graphic asset. */
  const GraphicSuffixes: seq<string> := [".png", ".jpg", ".jpeg", ".svg"]

  /** What listing a directory yields: its names in listing order, or an
      error (the directory exists but cannot be read). */
  datatype Listing<T> = Unreadable | Listed(items: seq<T>)

  /** One name inside an installation root. `isDir` is what the directory test
      says of it (symbolic links to directories included); `contents` is what
      listing it yields, and matters only for directories. */
  datatype Entry = Entry(name: string, isDir: bool, contents: Listing<string>)

  /** An immutable snapshot of the filesystem: the roots that exist, each with
      its listing. A path that is not a key does not exist. */
  type FileSystem = map<string, Listing<Entry>>

  /** A discovered theme: its directory name and its full path. */
  datatype Theme = Theme(name: string, path: string)

  /** Listing errors the scanner does not catch, so they end the scan. */
  datatype ScanError = RootUnreadable(root: string) | ThemeDirUnreadable(dir: string)

  /** os.path.join for a name produced by a directory listing, which never
      contains a '/'. */
  function Join(base: string, name: string): string
  {
    base + "/" + name
  }

  predicate Excluded(name: string)
  {
    Lower(name) in ExcludedThemes
  }

  predicate HasDescriptor(files: seq<string>)
  {
    exists i :: 0 <= i < |files| && EndsWith(files[i], DescriptorSuffix)
  }

  predicate IsGraphic(file: string)
  {
    exists k :: 0 <= k < |GraphicSuffixes| && EndsWith(file, GraphicSuffixes[k])
  }

  predicate HasGraphic(files: seq<string>)
  {
    exists i :: 0 <= i < |files| && IsGraphic(files[i])
  }

  /** The entry is a theme bundle the scanner lists. */
  predicate Accepted(e: Entry)
  {
    && !Excluded(e.name)
    && e.isDir
    && e.contents.Listed?
    && HasDescriptor(e.contents.items)
    && HasGraphic(e.contents.items)
  }

  /** The entry makes the scan fail: a directory the scanner tries to list
      (it is not excluded) whose listing fails. */
  predicate ListingFails(e: Entry)
  {
    !Excluded(e.name) && e.isDir && e.contents.Unreadable?
  }

  function ThemeOf(base: string, e: Entry): Theme
  {
    Theme(e.name, Join(base, e.name))
  }

  /** The sort key: the lower-cased theme name. */
  function SortKey(t: Theme): string
  {
    Lower(t.name)
  }

  /** The inner loop over one root's entries, in listing order. */
  function ScanEntries(base: string, es: seq<Entry>): Result<seq<Theme>, ScanError>
    decreases |es|
  {
    if |es| == 0 then Success([])
    else if ListingFails(es[0]) then Failure(ThemeDirUnreadable(Join(base, es[0].name)))
    else
      match ScanEntries(base, es[1..])
      case Failure(err) => Failure(err)
      case Success(rest) => Success((if Accepted(es[0]) then [ThemeOf(base, es[0])] else []) + rest)
  }

  /** The outer loop over the roots; a root that does not exist is skipped. */
  function ScanRoots(bases: seq<string>, fs: FileSystem): Result<seq<Theme>, ScanError>
    decreases |bases|
  {
    if |bases| == 0 then Success([])
    else if bases[0] !in fs then ScanRoots(bases[1..], fs)
    else
      match fs[bases[0]]
      case Unreadable => Failure(RootUnreadable(bases[0]))
      case Listed(es) =>
        match ScanEntries(bases[0], es)
        case Failure(err) => Failure(err)
        case Success(found) =>
          match ScanRoots(bases[1..], fs)
          case Failure(err) => Failure(err)
          case Success(rest) => Success(found + rest)
  }

  /** get_theme_dirs: scan the installation roots, then sort by lower-cased name. */
  function GetThemeDirs(fs: FileSystem): Result<seq<Theme>, ScanError>
  {
    match ScanRoots(ThemePaths, fs)
    case Failure(err) => Failure(err)
    case Success(found) => Success(SortByKey(SortKey, found))
  }

  // ---------------------------------------------------------------------
  // Reference definitions: what the scan should find, without errors.
  // ---------------------------------------------------------------------

  /** The entries of a root; a missing or unreadable root has none. */
  function EntriesAt(fs: FileSystem, base: string): seq<Entry>
  {
    if base in fs && fs[base].Listed? then fs[base].items else []
  }

  /** The accepted entries of one root, as themes, in listing order. */
  function AcceptedUnder(base: string, es: seq<Entry>): seq<Theme>
    decreases |es|
  {
    if |es| == 0 then []
    else (if Accepted(es[0]) then [ThemeOf(base, es[0])] else []) + AcceptedUnder(base, es[1..])
  }

  /** The discovery order: the accepted entries of all roots, root by root. */
  function Discovery(bases: seq<string>, fs: FileSystem): seq<Theme>
    decreases |bases|
  {
    if |bases| == 0 then []
    else AcceptedUnder(bases[0], EntriesAt(fs, bases[0])) + Discovery(bases[1..], fs)
  }

  /** Scanning this root raises: it exists but cannot be listed, or one of
      its listed directories cannot. */
  predicate RootFails(fs: FileSystem, base: string)
  {
    base in fs && (fs[base].Unreadable? || exists j :: 0 <= j < |fs[base].items| && ListingFails(fs[base].items[j]))
  }

  /** `t` is the theme the scanner reports for entry `e` under `base`. */
  predicate FoundAs(base: string, e: Entry, t: Theme)
  {
    Accepted(e) && t == ThemeOf(base, e)
  }

  // ---------------------------------------------------------------------
  // The scan loops agree with the reference definitions.
  // ---------------------------------------------------------------------

  /** One root's loop fails exactly when some entry's listing fails, and
      otherwise yields the accepted entries in listing order. */
  lemma {:induction false} ScanEntriesOutcome(base: string, es: seq<Entry>)
    ensures ScanEntries(base, es).Failure? <==> exists j :: 0 <= j < |es| && ListingFails(es[j])
    ensures ScanEntries(base, es).Success? ==> ScanEntries(base, es).value == AcceptedUnder(base, es)
    decreases |es|
  {
    if |es| > 0 {
      ScanEntriesOutcome(base, es[1..]);
      if exists j :: 0 <= j < |es[1..]| && ListingFails(es[1..][j]) {
        var j :| 0 <= j < |es[1..]| && ListingFails(es[1..][j]);
        assert ListingFails(es[j + 1]);
      }
      if exists j :: 0 <= j < |es| && ListingFails(es[j]) {
        var j :| 0 <= j < |es| && ListingFails(es[j]);
        if j > 0 {
          assert ListingFails(es[1..][j - 1]);
        }
      }
    }
  }

  /** The whole scan fails exactly when some existing root fails, and
      otherwise yields the discovery order. */
  lemma {:induction false} ScanRootsOutcome(bases: seq<string>, fs: FileSystem)
    ensures ScanRoots(bases, fs).Failure? <==> exists i :: 0 <= i < |bases| && RootFails(fs, bases[i])
    ensures ScanRoots(bases, fs).Success? ==> ScanRoots(bases, fs).value == Discovery(bases, fs)
    decreases |bases|
  {
    if |bases| > 0 {
      ScanRootsOutcome(bases[1..], fs);
      var b := bases[0];
      if b in fs && fs[b].Listed? {
        ScanEntriesOutcome(b, fs[b].items);
      }
      if exists i :: 0 <= i < |bases[1..]| && RootFails(fs, bases[1..][i]) {
        var i :| 0 <= i < |bases[1..]| && RootFails(fs, bases[1..][i]);
        assert RootFails(fs, bases[i + 1]);
      }
      if exists i :: 0 <= i < |bases| && RootFails(fs, bases[i]) {
        var i :| 0 <= i < |bases| && RootFails(fs, bases[i]);
        if i > 0 {
          assert RootFails(fs, bases[1..][i - 1]);
        }
      }
    }
  }

  /** A theme is found under a root exactly when some entry of that root is
      accepted and reported as it. */
  lemma {:induction false} AcceptedUnderMembers(base: string, es: seq<Entry>, t: Theme)
    ensures t in AcceptedUnder(base, es) <==> exists j :: 0 <= j < |es| && FoundAs(base, es[j], t)
    decreases |es|
  {
    if |es| > 0 {
      AcceptedUnderMembers(base, es[1..], t);
      if exists j :: 0 <= j < |es| && FoundAs(base, es[j], t) {
        var j :| 0 <= j < |es| && FoundAs(base, es[j], t);
        if j > 0 {
          assert FoundAs(base, es[1..][j - 1], t);
        }
      }
      if exists j :: 0 <= j < |es[1..]| && FoundAs(base, es[1..][j], t) {
        var j :| 0 <= j < |es[1..]| && FoundAs(base, es[1..][j], t);
        assert FoundAs(base, es[j + 1], t);
      }
    }
  }

  /** A theme is in the discovery order exactly when some root has an
      accepted entry reported as it. */
  lemma {:induction false} DiscoveryMembers(bases: seq<string>, fs: FileSystem, t: Theme)
    ensures t in Discovery(bases, fs) <==>
      exists i, j :: 0 <= i < |bases| && 0 <= j < |EntriesAt(fs, bases[i])| && FoundAs(bases[i], EntriesAt(fs, bases[i])[j], t)
    decreases |bases|
  {
    if |bases| > 0 {
      DiscoveryMembers(bases[1..], fs, t);
      AcceptedUnderMembers(bases[0], EntriesAt(fs, bases[0]), t);
      if exists i, j :: 0 <= i < |bases| && 0 <= j < |EntriesAt(fs, bases[i])| && FoundAs(bases[i], EntriesAt(fs, bases[i])[j], t) {
        var i, j :| 0 <= i < |bases| && 0 <= j < |EntriesAt(fs, bases[i])| && FoundAs(bases[i], EntriesAt(fs, bases[i])[j], t);
        if i > 0 {
          assert bases[1..][i - 1] == bases[i];
          assert FoundAs(bases[1..][i - 1], EntriesAt(fs, bases[1..][i - 1])[j], t);
        } else {
          assert FoundAs(bases[0], EntriesAt(fs, bases[0])[j], t);
        }
      }
      if exists i, j :: 0 <= i < |bases[1..]| && 0 <= j < |EntriesAt(fs, bases[1..][i])| && FoundAs(bases[1..][i], EntriesAt(fs, bases[1..][i])[j], t) {
        var i, j :| 0 <= i < |bases[1..]| && 0 <= j < |EntriesAt(fs, bases[1..][i])| && FoundAs(bases[1..][i], EntriesAt(fs, bases[1..][i])[j], t);
        assert bases[1..][i] == bases[i + 1];
        assert FoundAs(bases[i + 1], EntriesAt(fs, bases[i + 1])[j], t);
      }
    }
  }

  // ---------------------------------------------------------------------
  // Properties of get_theme_dirs.
  // ---------------------------------------------------------------------

  /** The scan raises exactly when an existing installation root cannot be
      listed, or a non-excluded directory inside one cannot; excluded names
      and non-directories are never listed, so they never cause an error. */
  lemma GetThemeDirsFails(fs: FileSystem)
    ensures GetThemeDirs(fs).Failure? <==> exists i :: 0 <= i < |ThemePaths| && RootFails(fs, ThemePaths[i])
  {
    ScanRootsOutcome(ThemePaths, fs);
  }

  /** No reported theme has a protected name, whatever its contents. */
  lemma GetThemeDirsExcludes(fs: FileSystem)
    ensures GetThemeDirs(fs).Success? ==>
      forall t :: t in GetThemeDirs(fs).value ==> Lower(t.name) !in ExcludedThemes
  {
    if GetThemeDirs(fs).Success? {
      forall t | t in GetThemeDirs(fs).value
        ensures Lower(t.name) !in ExcludedThemes
      {
        GetThemeDirsSound(fs, t);
      }
    }
  }

  /** Soundness: every reported theme is a directory entry of an existing
      installation root, reported under the root's path joined with its name,
      whose listing holds a descriptor file and a graphic asset. */
  lemma GetThemeDirsSound(fs: FileSystem, t: Theme)
    requires GetThemeDirs(fs).Success? && t in GetThemeDirs(fs).value
    ensures exists i, j :: && 0 <= i < |ThemePaths| && ThemePaths[i] in fs
                           && 0 <= j < |EntriesAt(fs, ThemePaths[i])|
                           && var e := EntriesAt(fs, ThemePaths[i])[j];
                              && e.name == t.name
                              && t.path == Join(ThemePaths[i], t.name)
                              && !Excluded(e.name)
                              && e.isDir && e.contents.Listed?
                              && HasDescriptor(e.contents.items)
                              && HasGraphic(e.contents.items)
  {
    ScanRootsOutcome(ThemePaths, fs);
    var found := ScanRoots(ThemePaths, fs).value;
    assert t in multiset(found);
    DiscoveryMembers(ThemePaths, fs, t);
  }

  /** Completeness: every accepted directory entry of an installation root is
      reported. */
  lemma GetThemeDirsComplete(fs: FileSystem)
    ensures GetThemeDirs(fs).Success? ==>
      forall i, j :: 0 <= i < |ThemePaths| && 0 <= j < |EntriesAt(fs, ThemePaths[i])| &&
                     Accepted(EntriesAt(fs, ThemePaths[i])[j]) ==>
                     ThemeOf(ThemePaths[i], EntriesAt(fs, ThemePaths[i])[j]) in GetThemeDirs(fs).value
  {
    if GetThemeDirs(fs).Success? {
      ScanRootsOutcome(ThemePaths, fs);
      var found := ScanRoots(ThemePaths, fs).value;
      forall i, j | 0 <= i < |ThemePaths| && 0 <= j < |EntriesAt(fs, ThemePaths[i])| &&
                    Accepted(EntriesAt(fs, ThemePaths[i])[j])
        ensures ThemeOf(ThemePaths[i], EntriesAt(fs, ThemePaths[i])[j]) in GetThemeDirs(fs).value
      {
        var t := ThemeOf(ThemePaths[i], EntriesAt(fs, ThemePaths[i])[j]);
        assert FoundAs(ThemePaths[i], EntriesAt(fs, ThemePaths[i])[j], t);
        DiscoveryMembers(ThemePaths, fs, t);
        assert t in multiset(found);
      }
    }
  }

  /** Ordering: the result is sorted by lower-cased name, is a permutation of
      the discovery order (so duplicates across roots are kept), and themes
      with equal keys keep their discovery order. */
  lemma GetThemeDirsOrdered(fs: FileSystem)
    ensures GetThemeDirs(fs).Success? ==>
      && Sorted(SortKey, GetThemeDirs(fs).value)
      && multiset(GetThemeDirs(fs).value) == multiset(Discovery(ThemePaths, fs))
      && forall k :: WithKey(SortKey, GetThemeDirs(fs).value, k) == WithKey(SortKey, Discovery(ThemePaths, fs), k)
  {
    if GetThemeDirs(fs).Success? {
      ScanRootsOutcome(ThemePaths, fs);
      var found := ScanRoots(ThemePaths, fs).value;
      AdjacentSortedIsSorted(SortKey, SortByKey(SortKey, found));
      forall k
        ensures WithKey(SortKey, GetThemeDirs(fs).value, k) == WithKey(SortKey, Discovery(ThemePaths, fs), k)
      {
        SortStable(SortKey, found, k);
      }
    }
  }

  // ---------------------------------------------------------------------
  // Worked examples.
  // ---------------------------------------------------------------------

  /** The outer loop over a first root that is listed and does not fail. */
  lemma ScanRootsStep(bases: seq<string>, fs: FileSystem)
    requires |bases| > 0 && bases[0] in fs && fs[bases[0]].Listed?
    requires ScanEntries(bases[0], fs[bases[0]].items).Success? && ScanRoots(bases[1..], fs).Success?
    ensures ScanRoots(bases, fs) ==
      Success(ScanEntries(bases[0], fs[bases[0]].items).value + ScanRoots(bases[1..], fs).value)
  {
  }

  /** The scan of a root holding one entry that does not fail. */
  lemma ScanOneEntry(base: string, e: Entry)
    requires !ListingFails(e)
    ensures ScanEntries(base, [e]) == Success(if Accepted(e) then [ThemeOf(base, e)] else [])
  {
    var found: seq<Theme> := if Accepted(e) then [ThemeOf(base, e)] else [];
    assert [e][1..] == [];
    assert ScanEntries(base, [e][1..]) == Success([]);
    assert found + [] == found;
  }

  /** The scan of a root holding two entries that do not fail. */
  lemma ScanTwoEntries(base: string, e1: Entry, e2: Entry)
    requires !ListingFails(e1) && !ListingFails(e2)
    ensures ScanEntries(base, [e1, e2]) ==
      Success((if Accepted(e1) then [ThemeOf(base, e1)] else []) + (if Accepted(e2) then [ThemeOf(base, e2)] else []))
  {
    var found2: seq<Theme> := if Accepted(e2) then [ThemeOf(base, e2)] else [];
    var found1: seq<Theme> := if Accepted(e1) then [ThemeOf(base, e1)] else [];
    ScanOneEntry(base, e2);
    assert [e1, e2][1..] == [e2];
    assert ScanEntries(base, [e1, e2]) == Success(found1 + found2);
  }

  /** A bundle beside a protected theme: only the bundle is listed, whatever
      the protected directory holds. */
  lemma ExampleBundleBesideProtected(bundle: Entry, protected: Entry)
    requires Accepted(bundle) && Excluded(protected.name)
    ensures GetThemeDirs(map[ThemePaths[0] := Listed([bundle, protected])])
            == Success([ThemeOf(ThemePaths[0], bundle)])
  {
    var fs: FileSystem := map[ThemePaths[0] := Listed([bundle, protected])];
    var t := ThemeOf(ThemePaths[0], bundle);
    ScanTwoEntries(ThemePaths[0], bundle, protected);
    assert ScanEntries(ThemePaths[0], fs[ThemePaths[0]].items) == Success([t] + []);
    assert ScanRoots(ThemePaths[1..], fs) == Success([]) by {
      assert ThemePaths[1..][1..] == [];
    }
    ScanRootsStep(ThemePaths, fs);
    assert [t] + [] + [] == [t];
    assert SortByKey(SortKey, [t]) == [t];
  }

  /** The same bundle under both roots is reported twice, first-root copy
      first: duplicates are not removed. */
  lemma ExampleDuplicatesAcrossRoots(bundle: Entry)
    requires Accepted(bundle)
    ensures GetThemeDirs(map[ThemePaths[0] := Listed([bundle]), ThemePaths[1] := Listed([bundle])])
            == Success([ThemeOf(ThemePaths[0], bundle), ThemeOf(ThemePaths[1], bundle)])
  {
    var fs: FileSystem := map[ThemePaths[0] := Listed([bundle]), ThemePaths[1] := Listed([bundle])];
    var t0 := ThemeOf(ThemePaths[0], bundle);
    var t1 := ThemeOf(ThemePaths[1], bundle);
    ScanOneEntry(ThemePaths[0], bundle);
    ScanOneEntry(ThemePaths[1], bundle);
    assert ScanRoots(ThemePaths[1..][1..], fs) == Success([]);
    ScanRootsStep(ThemePaths[1..], fs);
    assert ScanRoots(ThemePaths[1..], fs) == Success([t1] + []);
    ScanRootsStep(ThemePaths, fs);
    assert ScanRoots(ThemePaths, fs) == Success([t0] + ([t1] + []));
    assert [t0] + ([t1] + []) == [t0, t1];
    LexLeReflexive(SortKey(t0));
    assert SortByKey(SortKey, [t1]) == [t1];
    assert SortByKey(SortKey, [t0, t1]) == Insert(SortKey, t0, [t1]) by {
      assert [t0, t1][1..] == [t1];
    }
  }

  /** Two bundles listed out of key order come back swapped. */
  lemma ExampleReordered(first: Entry, second: Entry)
    requires Accepted(first) && Accepted(second)
    requires !LexLe(Lower(first.name), Lower(second.name))
    ensures GetThemeDirs(map[ThemePaths[1] := Listed([first, second])])
            == Success([ThemeOf(ThemePaths[1], second), ThemeOf(ThemePaths[1], first)])
  {
    var fs: FileSystem := map[ThemePaths[1] := Listed([first, second])];
    var t1 := ThemeOf(ThemePaths[1], first);
    var t2 := ThemeOf(ThemePaths[1], second);
    ScanTwoEntries(ThemePaths[1], first, second);
    assert ScanRoots(ThemePaths[1..][1..], fs) == Success([]);
    ScanRootsStep(ThemePaths[1..], fs);
    assert ScanRoots(ThemePaths[1..], fs) == Success([t1] + [t2] + []);
    assert [t1] + [t2] + [] == [t1, t2];
    assert ScanRoots(ThemePaths, fs) == Success([t1, t2]);
    assert SortByKey(SortKey, [t2]) == [t2];
    assert SortByKey(SortKey, [t1, t2]) == Insert(SortKey, t1, [t2]) by {
      assert [t1, t2][1..] == [t2];
    }
    assert !LexLe(SortKey(t1), SortKey(t2));
    assert Insert(SortKey, t1, [t2]) == [t2] + Insert(SortKey, t1, []) by {
      assert [t2][1..] == [];
    }
    assert Insert(SortKey, t1, []) == [t1];
    assert GetThemeDirs(fs) == Success([t2] + [t1]);
    assert [t2] + [t1] == [t2, t1];
  }

  /** The ordering is case-insensitive: `Zed` sorts after `alpha`, although
      'Z' precedes 'a' in code-point order. */
  lemma ExampleCaseInsensitiveKeys()
    ensures LexLe("Zed", "alpha")
    ensures !LexLe(Lower("Zed"), Lower("alpha"))
  {
  }

  /** `text` is protected in any letter case. */
  lemma ExampleProtectedAnyCase()
    ensures Excluded("text") && Excluded("Text") && Excluded("UBUNTU-TEXT")
    ensures !Excluded("texts")
  {
    assert Lower("text") == "text";
    assert Lower("Text") == "text";
    assert Lower("UBUNTU-TEXT") == "ubuntu-text";
    assert Lower("texts") == "texts";
  }

  /** Suffix tests are case-sensitive: an upper-case extension is no descriptor. */
  lemma ExampleSuffixCaseSensitive()
    ensures !HasDescriptor(["foo.PLYMOUTH"])
    ensures !HasGraphic(["bg.PNG"])
  {
  }
}
