/** The decision parts of `import_theme` and `apply_theme`: which privileged
    commands they issue. Commands are planned as argument vectors; running
    them, and the archive extraction that precedes an import, are outside
    the model. */
module Commands {
  import opened Wrappers
  import opened Strings
  import opened Scanner
  import opened Sorting

  /** An argument vector handed to the command runner. */
  type Argv = seq<string>

  /** The directory both commands write into; it is the first scanned root. */
  const InstallRoot: string := "/usr/share/plymouth/themes"

  // ---------------------------------------------------------------------
  // import_theme
  // ---------------------------------------------------------------------

  /** One step of a top-down walk of the extracted archive: a directory and
      the non-directory names directly inside it (os.walk's `files`). */
  datatype WalkStep = WalkStep(dir: string, files: seq<string>)

  /** The index of the first walked directory holding a descriptor file. */
  function FirstDescriptorDir(walk: seq<WalkStep>): (r: Option<nat>)
    ensures r.Some? ==> r.value < |walk| && HasDescriptor(walk[r.value].files)
    ensures r.Some? ==> forall k :: 0 <= k < r.value ==> !HasDescriptor(walk[k].files)
    ensures r.None? ==> forall k :: 0 <= k < |walk| ==> !HasDescriptor(walk[k].files)
    decreases |walk|
  {
    if |walk| == 0 then None
    else if HasDescriptor(walk[0].files) then Some(0)
    else
      match FirstDescriptorDir(walk[1..])
      case None => None
      case Some(i) => Some(i + 1)
  }

  /** The recursive copy of a theme directory into the installation root. */
  function CopyCommand(source: string): Argv
  {
    ["pkexec", "cp", "-r", source, InstallRoot + "/"]
  }

  /** import_theme after extraction: copy the first walked directory that
      holds a descriptor file, or do nothing when none does. */
  function PlanImport(walk: seq<WalkStep>): (r: Option<Argv>)
    ensures r.None? <==> forall k :: 0 <= k < |walk| ==> !HasDescriptor(walk[k].files)
    ensures r.Some? ==>
      exists i :: && 0 <= i < |walk| && HasDescriptor(walk[i].files)
                  && (forall k :: 0 <= k < i ==> !HasDescriptor(walk[k].files))
                  && r.value == CopyCommand(walk[i].dir)
  {
    match FirstDescriptorDir(walk)
    case None => None
    case Some(i) => Some(CopyCommand(walk[i].dir))
  }

  /** The walk stops at the first match: whatever is walked after it does not
      change the plan. */
  lemma ImportStopsAtFirstMatch(walk: seq<WalkStep>, later: seq<WalkStep>)
    requires PlanImport(walk).Some?
    ensures PlanImport(walk + later) == PlanImport(walk)
  {
    var i := FirstDescriptorDir(walk).value;
    assert (walk + later)[i] == walk[i];
  }

  /** Directories without a descriptor file are passed over: walking them
      first does not change the plan. */
  lemma ImportSkipsNonThemes(skipped: seq<WalkStep>, walk: seq<WalkStep>)
    requires forall k :: 0 <= k < |skipped| ==> !HasDescriptor(skipped[k].files)
    ensures PlanImport(skipped + walk) == PlanImport(walk)
  {
    var both := skipped + walk;
    var n := |skipped|;
    if FirstDescriptorDir(walk).Some? {
      var i := FirstDescriptorDir(walk).value;
      assert both[n + i] == walk[i];
    }
  }

  // ---------------------------------------------------------------------
  // apply_theme
  // ---------------------------------------------------------------------

  /** The descriptor path apply_theme insists on: `<root>/<t>/<t>.plymouth`. */
  function ThemeFile(theme: string): string
  {
    InstallRoot + "/" + theme + "/" + theme + DescriptorSuffix
  }

  /** Registers a descriptor as the default boot-splash alternative. */
  function SetDefaultCommand(file: string): Argv
  {
    ["pkexec", "update-alternatives", "--set", "default.plymouth", file]
  }

  /** Regenerates the initial ramdisk. */
  const RebuildInitramfs: Argv := ["pkexec", "update-initramfs", "-u"]

  /** Reads back the theme whose descriptor path `p` is, if it is one. */
  function DescriptorTheme(p: string): (r: Option<string>)
    ensures r.Some? ==> ThemeFile(r.value) == p
  {
    var pre := |InstallRoot| + 1;
    var fixed := pre + 1 + |DescriptorSuffix|;
    if |p| < fixed || (|p| - fixed) % 2 != 0 then None
    else
      var t := p[pre .. pre + (|p| - fixed) / 2];
      if ThemeFile(t) == p then Some(t) else None
  }

  /** The descriptor path determines the theme: reading it back gives the
      theme it was built from. */
  lemma DescriptorThemeRoundTrip(theme: string)
    ensures DescriptorTheme(ThemeFile(theme)) == Some(theme)
  {
    var p := ThemeFile(theme);
    var pre := |InstallRoot| + 1;
    assert |p| == pre + 2 * |theme| + 1 + |DescriptorSuffix|;
    assert p[pre .. pre + |theme|] == theme;
  }

  /** Distinct themes have distinct descriptor paths. */
  lemma ThemeFileInjective(t1: string, t2: string)
    ensures ThemeFile(t1) == ThemeFile(t2) ==> t1 == t2
  {
    DescriptorThemeRoundTrip(t1);
    DescriptorThemeRoundTrip(t2);
  }

  /** apply_theme: nothing when the descriptor path does not exist; otherwise
      register that descriptor, then rebuild the initial ramdisk. Exit codes
      are not inspected, so the plan does not depend on how the first command
      ends: the rebuild always follows the registration. */
  function PlanApply(theme: string, present: string -> bool): (r: seq<Argv>)
    ensures r == [] <==> !present(ThemeFile(theme))
    ensures r != [] ==>
      && |r| == 2
      && |r[0]| == 5 && r[0][..4] == ["pkexec", "update-alternatives", "--set", "default.plymouth"]
      && present(r[0][4]) && DescriptorTheme(r[0][4]) == Some(theme)
      && r[1] == RebuildInitramfs
  {
    var file := ThemeFile(theme);
    DescriptorThemeRoundTrip(theme);
    if !present(file) then [] else [SetDefaultCommand(file), RebuildInitramfs]
  }

  // ---------------------------------------------------------------------
  // How the scanner and apply_theme disagree.
  // ---------------------------------------------------------------------

  /** The file paths of a snapshot: every name listed inside a directory
      entry of an existing root. A listed name is taken to exist. */
  ghost predicate FileInSnapshot(fs: FileSystem, p: string)
  {
    exists b, e, f :: b in fs && e in EntriesAt(fs, b) && e.isDir && e.contents.Listed? &&
                      f in e.contents.items && p == Join(Join(b, e.name), f)
  }

  lemma JoinCancel(b: string, name: string, f: string, g: string)
    requires Join(Join(b, name), f) == Join(Join(b, name), g)
    ensures f == g
  {
    var n := |Join(Join(b, name), "")|;
    assert f == Join(Join(b, name), f)[n..];
    assert g == Join(Join(b, name), g)[n..];
  }

  /** A bundle alone under the first root is listed by the scanner, yet
      apply_theme finds it exactly when it holds a descriptor named after its
      directory: the scanner accepts any `.plymouth` file, apply_theme only
      `<name>/<name>.plymouth`. */
  lemma ApplyNeedsDescriptorNamedAfterDirectory(bundle: Entry)
    requires Accepted(bundle)
    ensures GetThemeDirs(map[InstallRoot := Listed([bundle])]) == Success([ThemeOf(InstallRoot, bundle)])
    ensures var fs: FileSystem := map[InstallRoot := Listed([bundle])];
            PlanApply(bundle.name, p => FileInSnapshot(fs, p)) != [] <==>
              bundle.name + DescriptorSuffix in bundle.contents.items
  {
    var fs: FileSystem := map[InstallRoot := Listed([bundle])];
    var t := ThemeOf(InstallRoot, bundle);
    ScanOneEntry(InstallRoot, bundle);
    assert ScanRoots(ThemePaths[1..], fs) == Success([]) by {
      assert ThemePaths[1..][1..] == [];
    }
    ScanRootsStep(ThemePaths, fs);
    assert [t] + [] == [t];
    assert SortByKey(SortKey, [t]) == [t];
    var file := ThemeFile(bundle.name);
    var d := bundle.name + DescriptorSuffix;
    assert file == Join(Join(InstallRoot, bundle.name), d);
    if d in bundle.contents.items {
      assert bundle in EntriesAt(fs, InstallRoot);
      assert FileInSnapshot(fs, file);
    }
    if FileInSnapshot(fs, file) {
      var b, e, f :| b in fs && e in EntriesAt(fs, b) && e.isDir && e.contents.Listed? &&
                     f in e.contents.items && file == Join(Join(b, e.name), f);
      assert b == InstallRoot && e == bundle;
      JoinCancel(InstallRoot, bundle.name, f, d);
    }
  }

  /** A theme found only under the second root is listed by the scanner, but
      apply_theme plans nothing for it: it looks under the first root only. */
  lemma ApplyIgnoresSecondRoot(bundle: Entry, present: string -> bool)
    requires Accepted(bundle)
    requires forall p :: present(p) ==> StartsWith(p, ThemePaths[1] + "/")
    ensures GetThemeDirs(map[ThemePaths[1] := Listed([bundle])]) == Success([ThemeOf(ThemePaths[1], bundle)])
    ensures PlanApply(bundle.name, present) == []
  {
    var fs: FileSystem := map[ThemePaths[1] := Listed([bundle])];
    var t := ThemeOf(ThemePaths[1], bundle);
    ScanOneEntry(ThemePaths[1], bundle);
    assert ScanRoots(ThemePaths[1..][1..], fs) == Success([]);
    ScanRootsStep(ThemePaths[1..], fs);
    assert [t] + [] == [t];
    assert ScanRoots(ThemePaths, fs) == Success([t]);
    assert SortByKey(SortKey, [t]) == [t];
    var file := ThemeFile(bundle.name);
    assert file[1] == 'u' && (ThemePaths[1] + "/")[1] == 'l';
    assert !StartsWith(file, ThemePaths[1] + "/");
  }
}
