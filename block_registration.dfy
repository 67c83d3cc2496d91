/**
 * The registration pass of `createBlocks`: every template directory is
 * listed, every regular file whose name yields a slug has its headers read
 * and checked, and its record is handed to ACF's block registry in order.
 * A missing directory ends the pass quietly; a template whose header file
 * cannot be read ends it with the error `get_file_data` raises; a template
 * without a title or a category ends it with a fatal message.
 */
module BlockRegistration {
  import opened Wrappers
  import opened PhpStrings
  import opened BlockSlug
  import opened BlockDescriptor

  /** One item of a `DirectoryIterator` listing. */
  datatype DirEntry = DirEntry(filename: string, isDot: bool, isDir: bool)

  /**
   * What the pass asks of its host. `resolve` is `resource_path` (or
   * `locate_template`); `directories` maps each existing directory to its
   * listing; `files` maps each existing file to the headers `get_file_data`
   * reads from it; `assetUri` is the theme's asset URI lookup.
   */
  datatype Host = Host(
    resolve: string -> string,
    directories: map<string, seq<DirEntry>>,
    files: map<string, FileHeaders>,
    assetUri: string -> string)

  /** `file_exists` for a template file; the empty path never exists. */
  predicate FileExists(host: Host, path: string) {
    path != "" && path in host.files
  }

  /** `file_exists` on a template directory: the empty path never exists. */
  predicate DirectoryExists(host: Host, dir: string) {
    dir != "" && dir in host.directories
  }

  /**
   * The path the headers are read from: every `acf/` is removed from
   * `dir/filename`, wherever it occurs, the directory part included.
   */
  function HeaderPath(dir: string, filename: string): string {
    ReplaceAll(dir + "/" + filename, "acf/", "")
  }

  /**
   * What one directory entry contributes to the pass: nothing, one record,
   * the message of a `die`, or the header path whose file does not exist
   * (the code then hands "" to `get_file_data`, which throws under PHP 8).
   */
  datatype Step = Skip | Register(data: BlockData) | Die(message: string) | Unreadable(file: string)

  /** Steps that end the pass over their directory. */
  predicate Halts(s: Step) {
    s.Die? || s.Unreadable?
  }

  /**
   * The outcome of the loop body of `createBlocks` for entry `e` of
   * directory `dir`: dot entries, directories and entries without a slug
   * are skipped; of the others, one whose header path is not an existing
   * file cannot be read.
   */
  function EntryStep(dir: string, e: DirEntry, host: Host): (s: Step)
    ensures s.Skip? <==> e.isDot || e.isDir || SkipsSlug(FileSlug(e.filename))
    ensures s.Unreadable? <==> !s.Skip? && !FileExists(host, HeaderPath(dir, e.filename))
    ensures s.Unreadable? ==> s.file == HeaderPath(dir, e.filename)
  {
    if e.isDot || e.isDir then Skip
    else
      var slug := FileSlug(e.filename);
      if SkipsSlug(slug) then Skip
      else
        var file := HeaderPath(dir, e.filename);
        if !FileExists(host, file) then Unreadable(file)
        else
          var h := host.files[file];
          match Validate(dir, e.filename, h)
          case Some(message) => Die(message)
          case None => Register(Descriptor(slug.value, h, host.assetUri))
  }

  /**
   * How a pass ends: normally, at a missing directory, at a `die`, or at
   * the error reading the headers of a missing file.
   */
  datatype Ending = Completed | DirectoryMissing(directory: string) | Died(message: string) | HeaderReadFailed(file: string)

  /** The records registered by a pass, in order, and how it ended. */
  datatype Pass = Pass(registered: seq<BlockData>, ending: Ending)

  /** The steps of the entries of a listing, in order. */
  function Steps(dir: string, entries: seq<DirEntry>, host: Host): seq<Step> {
    seq(|entries|, k requires 0 <= k < |entries| => EntryStep(dir, entries[k], host))
  }

  /** The pass over a sequence of steps; it ends normally or at the first halting step. */
  function Scan(steps: seq<Step>): (p: Pass)
    ensures !p.ending.DirectoryMissing?
    ensures |p.registered| <= |steps|
  {
    if |steps| == 0 then Pass([], Completed)
    else
      match steps[0]
      case Skip => Scan(steps[1..])
      case Die(message) => Pass([], Died(message))
      case Unreadable(file) => Pass([], HeaderReadFailed(file))
      case Register(data) =>
        var rest := Scan(steps[1..]);
        Pass([data] + rest.registered, rest.ending)
  }

  /** The pass over the entries of one directory. */
  function ScanEntries(dir: string, entries: seq<DirEntry>, host: Host): Pass {
    Scan(Steps(dir, entries, host))
  }

  /**
   * What one directory contributes: the scan of its listing, or the early
   * return when it does not exist.
   */
  function DirectoryPass(directory: string, host: Host): (p: Pass)
    ensures p.ending.DirectoryMissing? <==> !DirectoryExists(host, host.resolve(directory))
  {
    var dir := host.resolve(directory);
    if !DirectoryExists(host, dir) then Pass([], DirectoryMissing(directory))
    else ScanEntries(dir, host.directories[dir], host)
  }

  /** Runs the passes one after the other until one does not complete. */
  function Run(passes: seq<Pass>): Pass {
    if |passes| == 0 then Pass([], Completed)
    else if !passes[0].ending.Completed? then passes[0]
    else
      var rest := Run(passes[1..]);
      Pass(passes[0].registered + rest.registered, rest.ending)
  }

  /** The passes of the directories, in order. */
  function DirectoryPasses(directories: seq<string>, host: Host): (passes: seq<Pass>)
    ensures |passes| == |directories|
  {
    if |directories| == 0 then [] else [DirectoryPass(directories[0], host)] + DirectoryPasses(directories[1..], host)
  }

  /** The whole pass over the template directories, in the order given. */
  function RegistrationPass(directories: seq<string>, host: Host): Pass {
    Run(DirectoryPasses(directories, host))
  }

  /** The records of the steps that register, in order, ignoring any halting step. */
  function Registrations(steps: seq<Step>): seq<BlockData> {
    if |steps| == 0 then []
    else if steps[0].Register? then [steps[0].data] + Registrations(steps[1..])
    else Registrations(steps[1..])
  }

  /** ACF's block type registry, seen as the log of `acf_register_block_type` calls. */
  class BlockTypeRegistry {
    var blockTypes: seq<BlockData>

    constructor()
      ensures blockTypes == []
    {
      blockTypes := [];
    }

    /** `acf_register_block_type`: appends one record. */
    method Register(data: BlockData)
      modifies this
      ensures blockTypes == old(blockTypes) + [data]
    {
      blockTypes := blockTypes + [data];
    }
  }

  /** `steps` are the steps of the entries of `entries`, in order. */
  predicate StepsOf(dir: string, entries: seq<DirEntry>, host: Host, steps: seq<Step>) {
    && |steps| == |entries|
    && forall k {:trigger EntryStep(dir, entries[k], host)} :: 0 <= k < |entries| ==> steps[k] == EntryStep(dir, entries[k], host)
  }

  lemma StepsAreSteps(dir: string, entries: seq<DirEntry>, host: Host)
    ensures StepsOf(dir, entries, host, Steps(dir, entries, host))
  {
  }

  /**
   * The body of the inner `foreach` of `createBlocks` for entry `j`: it
   * skips, registers one record, or reports how the pass ends.
   */
  method HandleEntry(dir: string, entries: seq<DirEntry>, j: nat, host: Host, registry: BlockTypeRegistry,
                     ghost steps: seq<Step>)
      returns (stop: Option<Ending>)
    requires j < |entries| && StepsOf(dir, entries, host, steps)
    modifies registry
    ensures steps[j].Register? ==> stop == None && registry.blockTypes == old(registry.blockTypes) + [steps[j].data]
    ensures steps[j].Die? ==> stop == Some(Died(steps[j].message)) && registry.blockTypes == old(registry.blockTypes)
    ensures steps[j].Unreadable? ==> stop == Some(HeaderReadFailed(steps[j].file)) && registry.blockTypes == old(registry.blockTypes)
    ensures steps[j].Skip? ==> stop == None && registry.blockTypes == old(registry.blockTypes)
  {
    var template := entries[j];
    assert steps[j] == EntryStep(dir, template, host);
    stop := None;
    if !template.isDot && !template.isDir {
      var slug := FileSlug(template.filename);
      var fn := template.filename;
      if !SkipsSlug(slug) {
        var file := HeaderPath(dir, fn);
        var filePath := if FileExists(host, file) then file else "";
        if filePath == "" {
          // `get_file_data('')` throws a ValueError: the pass ends here.
          stop := Some(HeaderReadFailed(file));
          return;
        }
        var headers := host.files[filePath];
        if Falsy(headers.title) {
          stop := Some(Died(TitleMessage(dir, template.filename)));
          return;
        }
        if Falsy(headers.category) {
          stop := Some(Died(CategoryMessage(dir, template.filename)));
          return;
        }
        var data := BuildBlockData(slug.value, headers, host.assetUri);
        registry.Register(data);
      }
    }
  }

  /**
   * The inner `foreach` of `createBlocks` over the listing of `dir`: it
   * registers the records of `steps` in order and stops at the first
   * halting step.
   */
  method ScanDirectory(dir: string, entries: seq<DirEntry>, host: Host, registry: BlockTypeRegistry,
                       ghost steps: seq<Step>)
      returns (ending: Ending)
    requires StepsOf(dir, entries, host, steps)
    modifies registry
    ensures registry.blockTypes == old(registry.blockTypes) + Scan(steps).registered
    ensures ending == Scan(steps).ending
  {
    var j := 0;
    while j < |entries|
      invariant 0 <= j <= |entries|
      invariant registry.blockTypes + Scan(steps[j..]).registered
        == old(registry.blockTypes) + Scan(steps).registered
      invariant Scan(steps[j..]).ending == Scan(steps).ending
    {
      ScanAt(steps, j);
      ghost var rest := Scan(steps[j + 1..]);
      ghost var logBefore := registry.blockTypes;
      var stop := HandleEntry(dir, entries, j, host, registry, steps);
      if stop.Some? {
        ending := stop.value;
        return;
      }
      if steps[j].Register? {
        assert registry.blockTypes + rest.registered == logBefore + ([steps[j].data] + rest.registered);
      }
      j := j + 1;
    }
    assert steps[|entries|..] == [];
    ending := Completed;
  }

  /** The pass over the steps from `j` on, in terms of step `j` and the pass after it. */
  lemma ScanAt(steps: seq<Step>, j: nat)
    requires j < |steps|
    ensures Scan(steps[j..]) ==
      match steps[j]
      case Skip => Scan(steps[j + 1..])
      case Die(message) => Pass([], Died(message))
      case Unreadable(file) => Pass([], HeaderReadFailed(file))
      case Register(data) => Pass([data] + Scan(steps[j + 1..]).registered, Scan(steps[j + 1..]).ending)
  {
    assert steps[j..][1..] == steps[j + 1..];
    assert steps[j..][0] == steps[j];
  }

  /** `passes` are the passes of the directories `directories`, in order. */
  predicate PassesOf(directories: seq<string>, host: Host, passes: seq<Pass>) {
    && |passes| == |directories|
    && forall k {:trigger DirectoryPass(directories[k], host)} :: 0 <= k < |directories| ==> passes[k] == DirectoryPass(directories[k], host)
  }

  lemma {:induction false} PassesArePasses(directories: seq<string>, host: Host)
    ensures PassesOf(directories, host, DirectoryPasses(directories, host))
    decreases |directories|
  {
    if |directories| > 0 {
      PassesArePasses(directories[1..], host);
      var passes := DirectoryPasses(directories, host);
      forall k | 0 <= k < |directories| ensures passes[k] == DirectoryPass(directories[k], host) {
        if k > 0 {
          assert directories[1..][k - 1] == directories[k];
        }
      }
    }
  }

  /**
   * The body of the outer `foreach` of `createBlocks` for directory `i`: the
   * early return when it is missing, else the scan of its listing.
   */
  method HandleDirectory(directories: seq<string>, i: nat, host: Host, registry: BlockTypeRegistry,
                         ghost passes: seq<Pass>)
      returns (ending: Ending)
    requires i < |directories| && PassesOf(directories, host, passes)
    modifies registry
    ensures registry.blockTypes == old(registry.blockTypes) + passes[i].registered
    ensures ending == passes[i].ending
  {
    var directory := directories[i];
    assert passes[i] == DirectoryPass(directory, host);
    var dir := host.resolve(directory);
    if !DirectoryExists(host, dir) {
      ending := DirectoryMissing(directory);
      return;
    }
    StepsAreSteps(dir, host.directories[dir], host);
    ending := ScanDirectory(dir, host.directories[dir], host, registry, Steps(dir, host.directories[dir], host));
  }

  /**
   * `createBlocks`: walks the directories and their entries, registering
   * records in order, and stops at a missing directory, a missing header
   * file or a `die`.
   */
  method CreateBlocks(directories: seq<string>, host: Host, registry: BlockTypeRegistry)
      returns (ending: Ending)
    modifies registry
    ensures registry.blockTypes == old(registry.blockTypes) + RegistrationPass(directories, host).registered
    ensures ending == RegistrationPass(directories, host).ending
  {
    ghost var passes := DirectoryPasses(directories, host);
    PassesArePasses(directories, host);
    var i := 0;
    while i < |directories|
      invariant 0 <= i <= |directories|
      invariant registry.blockTypes + Run(passes[i..]).registered == old(registry.blockTypes) + Run(passes).registered
      invariant Run(passes[i..]).ending == Run(passes).ending
    {
      RunAt(passes, i);
      ghost var rest := Run(passes[i + 1..]);
      ghost var logBefore := registry.blockTypes;
      ending := HandleDirectory(directories, i, host, registry, passes);
      if !ending.Completed? {
        return;
      }
      assert registry.blockTypes + rest.registered == logBefore + (passes[i].registered + rest.registered);
      i := i + 1;
    }
    assert passes[|directories|..] == [];
    ending := Completed;
  }

  /** The run of the passes from `i` on, in terms of pass `i` and the run after it. */
  lemma RunAt(passes: seq<Pass>, i: nat)
    requires i < |passes|
    ensures Run(passes[i..]) ==
      if !passes[i].ending.Completed? then passes[i]
      else Pass(passes[i].registered + Run(passes[i + 1..]).registered, Run(passes[i + 1..]).ending)
  {
    assert passes[i..][1..] == passes[i + 1..];
    assert passes[i..][0] == passes[i];
  }

  /** Scanning steps in two parts: the second part is scanned only if the first ends normally. */
  lemma {:induction false} ScanAppend(a: seq<Step>, b: seq<Step>)
    ensures Scan(a + b) ==
      var first := Scan(a);
      if !first.ending.Completed? then first
      else
        var second := Scan(b);
        Pass(first.registered + second.registered, second.ending)
    decreases |a|
  {
    if |a| == 0 {
      assert a + b == b;
    } else {
      assert (a + b)[0] == a[0];
      assert (a + b)[1..] == a[1..] + b;
      ScanAppend(a[1..], b);
      if a[0].Register? {
        var rest := Scan(a[1..]);
        if rest.ending.Completed? {
          var second := Scan(b);
          assert [a[0].data] + (rest.registered + second.registered) == ([a[0].data] + rest.registered) + second.registered;
        }
      }
    }
  }

  /**
   * A halting step `k` ends the pass over the directory: nothing from step
   * `k` onwards is registered.
   */
  lemma FatalStepEndsScan(steps: seq<Step>, k: nat)
    requires k < |steps| && Halts(steps[k])
    ensures !Scan(steps).ending.Completed?
    ensures Scan(steps).registered == Scan(steps[..k]).registered
  {
    assert steps == steps[..k] + steps[k..];
    ScanAppend(steps[..k], steps[k..]);
    assert steps[k..][0] == steps[k];
  }

  /**
   * A fatal or unreadable entry ends the scan of its directory; nothing from
   * it onwards is registered.
   */
  lemma FatalEntryEndsScan(dir: string, entries: seq<DirEntry>, host: Host, k: nat)
    requires k < |entries| && Halts(EntryStep(dir, entries[k], host))
    ensures !ScanEntries(dir, entries, host).ending.Completed?
    ensures ScanEntries(dir, entries, host).registered == ScanEntries(dir, entries[..k], host).registered
  {
    var steps := Steps(dir, entries, host);
    FatalStepEndsScan(steps, k);
    assert steps[..k] == Steps(dir, entries[..k], host);
  }

  /** The message a scan dies with is the message of one of its steps. */
  lemma {:induction false} DiedAtSomeStep(steps: seq<Step>)
    requires Scan(steps).ending.Died?
    ensures exists k :: 0 <= k < |steps| && steps[k] == Die(Scan(steps).ending.message)
    decreases |steps|
  {
    if steps[0].Skip? || steps[0].Register? {
      DiedAtSomeStep(steps[1..]);
      var k :| 0 <= k < |steps[1..]| && steps[1..][k] == Die(Scan(steps[1..]).ending.message);
      assert steps[k + 1] == steps[1..][k];
    }
  }

  /** Without a halting step, a scan registers exactly the registering steps, in order, and completes. */
  lemma {:induction false} ScanWithoutFatal(steps: seq<Step>)
    requires forall k :: 0 <= k < |steps| ==> !Halts(steps[k])
    ensures Scan(steps) == Pass(Registrations(steps), Completed)
    decreases |steps|
  {
    if |steps| > 0 {
      assert !Halts(steps[0]);
      assert forall k :: 0 <= k < |steps[1..]| ==> steps[1..][k] == steps[k + 1];
      ScanWithoutFatal(steps[1..]);
    }
  }

  /**
   * A template that dies does so with the title message when its title is
   * empty and otherwise with the category message; it dies exactly when one
   * of the two headers is empty.
   */
  lemma EntryDies(dir: string, e: DirEntry, host: Host)
    requires !e.isDot && !e.isDir && !SkipsSlug(FileSlug(e.filename))
    requires FileExists(host, HeaderPath(dir, e.filename))
    ensures var h := host.files[HeaderPath(dir, e.filename)];
      && (EntryStep(dir, e, host).Die? <==> Falsy(h.title) || Falsy(h.category))
      && (Falsy(h.title) ==> EntryStep(dir, e, host) == Die(TitleMessage(dir, e.filename)))
      && (!Falsy(h.title) && Falsy(h.category) ==> EntryStep(dir, e, host) == Die(CategoryMessage(dir, e.filename)))
  {
  }

  /**
   * Where the directory brings no `acf/` into the path and the file name has
   * no `/`, the header path is the template's own path `dir/filename`.
   */
  lemma HeaderPathPlain(dir: string, filename: string)
    requires '/' !in filename && !Occurs("acf/", dir + "/")
    ensures HeaderPath(dir, filename) == dir + "/" + filename
  {
    var s := dir + "/" + filename;
    var p := |dir| + 1;
    assert !Occurs("acf/", s) by {
      if Occurs("acf/", s) {
        var i :| 0 <= i <= |s| && OccursAt("acf/", s, i);
        assert s[i + 3] == s[i..i + 4][3];
        if i + 3 < p {
          assert (dir + "/")[i..i + 4] == s[i..i + 4];
          assert OccursAt("acf/", dir + "/", i);
        }
      }
    }
    ReplaceAllAbsent(s, "acf/", "");
  }

  /**
   * In a directory whose path ends in `acf` the headers are looked up one
   * level up: `views/acf/hero.blade.php` is described by
   * `views/hero.blade.php`.
   */
  lemma AcfDirectoryHeaderPath(parent: string, filename: string)
    requires !Occurs("acf/", parent + "/") && '/' !in filename
    ensures HeaderPath(parent + "/acf", filename) == parent + "/" + filename
  {
    var x := parent + "/";
    var rest := "acf/" + filename;
    assert parent + "/acf" + "/" + filename == x + rest;
    forall i | 0 <= i < |x| ensures !OccursAt("acf/", x + rest, i) {
      NoAcfAt(x, rest, i);
    }
    ReplaceAllCopiesUnmatched(x, rest, "acf/", "");
    assert ReplaceAll(rest, "acf/", "") == filename by {
      ReplaceAllLeading("acf/", filename, "");
      ReplaceAllWithoutPatternChar(filename, "acf/", "", '/');
    }
  }

  /** `acf/` does not start inside `x` when it occurs nowhere in `x` and `rest` starts with `acf`. */
  lemma NoAcfAt(x: string, rest: string, i: int)
    requires !Occurs("acf/", x) && 0 <= i < |x|
    requires |rest| >= 3 && rest[..3] == "acf"
    ensures !OccursAt("acf/", x + rest, i)
  {
    var s := x + rest;
    if i + 4 <= |x| {
      assert s[i..i + 4] == x[i..i + 4];
      assert !OccursAt("acf/", x, i);
    } else if i + 4 <= |s| {
      var k := i + 3 - |x|;
      assert s[i + 3] == rest[k] == rest[..3][k];
    }
  }

  /**
   * So a template in such a directory cannot be read when its namesake one
   * level up does not exist, whatever headers the template itself has.
   */
  lemma AcfDirectoryTemplateUnreadable(parent: string, stem: string, host: Host)
    requires !Occurs("acf/", parent + "/")
    requires LowerCase(stem) && '-' !in stem && '\n' !in stem && '/' !in stem && !Falsy(stem)
    requires parent + "/" + (stem + BladeSuffix) !in host.files
    ensures EntryStep(parent + "/acf", DirEntry(stem + BladeSuffix, false, false), host)
      == Unreadable(parent + "/" + (stem + BladeSuffix))
  {
    assert '/' !in stem + BladeSuffix;
    AcfDirectoryHeaderPath(parent, stem + BladeSuffix);
    FileSlugOfStem(stem);
  }

  /** A record with a title, a category, a non-empty hyphen-free name, a mode and example mode "preview". */
  predicate WellFormed(d: BlockData) {
    && !Falsy(d.title) && !Falsy(d.category)
    && !Falsy(d.name) && '-' !in d.name
    && !Falsy(d.mode) && d.exampleMode == "preview"
  }

  /**
   * A registering entry is described by the headers read from its header
   * path, under the name its file slug gives, and its record is well formed.
   */
  lemma RegisteredEntry(dir: string, e: DirEntry, host: Host)
    requires EntryStep(dir, e, host).Register?
    ensures var d := EntryStep(dir, e, host).data;
      && FileSlug(e.filename).Some?
      && FileExists(host, HeaderPath(dir, e.filename))
      && d == Descriptor(FileSlug(e.filename).value, host.files[HeaderPath(dir, e.filename)], host.assetUri)
      && d.name == FileSlug(e.filename).value
      && WellFormed(d)
  {
    var slug := FileSlug(e.filename).value;
    RegisteredNameIsSlug(slug);
  }

  /** A scan registers only records of registering steps. */
  lemma {:induction false} ScanRegistersOwnRecords(steps: seq<Step>)
    ensures forall d :: d in Scan(steps).registered ==> exists k :: 0 <= k < |steps| && steps[k] == Register(d)
    decreases |steps|
  {
    if |steps| > 0 {
      ScanRegistersOwnRecords(steps[1..]);
      forall d | d in Scan(steps[1..]).registered
        ensures exists k :: 0 <= k < |steps| && steps[k] == Register(d)
      {
        var k :| 0 <= k < |steps[1..]| && steps[1..][k] == Register(d);
        assert steps[k + 1] == Register(d);
      }
    }
  }

  lemma ScanRegistersWellFormed(dir: string, entries: seq<DirEntry>, host: Host)
    ensures forall d :: d in ScanEntries(dir, entries, host).registered ==> WellFormed(d)
  {
    var steps := Steps(dir, entries, host);
    ScanRegistersOwnRecords(steps);
    forall d | d in Scan(steps).registered ensures WellFormed(d) {
      var k :| 0 <= k < |steps| && steps[k] == Register(d);
      RegisteredEntry(dir, entries[k], host);
    }
  }

  /** Every record of a run comes from one of its passes. */
  lemma {:induction false} RunRegistersFromPasses(passes: seq<Pass>)
    ensures forall d :: d in Run(passes).registered ==> exists k :: 0 <= k < |passes| && d in passes[k].registered
    decreases |passes|
  {
    if |passes| > 0 && passes[0].ending.Completed? {
      RunRegistersFromPasses(passes[1..]);
      forall d | d in Run(passes[1..]).registered
        ensures exists k :: 0 <= k < |passes| && d in passes[k].registered
      {
        var k :| 0 <= k < |passes[1..]| && d in passes[1..][k].registered;
        assert passes[k + 1] == passes[1..][k];
      }
    }
  }

  /**
   * Every record a pass registers has a title, a category, a non-empty
   * hyphen-free name, a mode, and example mode "preview".
   */
  lemma RegisteredAreWellFormed(directories: seq<string>, host: Host)
    ensures forall d :: d in RegistrationPass(directories, host).registered ==> WellFormed(d)
  {
    var passes := DirectoryPasses(directories, host);
    RunRegistersFromPasses(passes);
    PassesArePasses(directories, host);
    forall d | d in Run(passes).registered ensures WellFormed(d) {
      var k :| 0 <= k < |passes| && d in passes[k].registered;
      assert passes[k] == DirectoryPass(directories[k], host);
      var dir := host.resolve(directories[k]);
      ScanRegistersWellFormed(dir, host.directories[dir], host);
    }
  }

  /** Running passes in two parts: the second part runs only if the first completes. */
  lemma {:induction false} RunAppend(a: seq<Pass>, b: seq<Pass>)
    ensures Run(a + b) ==
      var first := Run(a);
      if !first.ending.Completed? then first
      else
        var second := Run(b);
        Pass(first.registered + second.registered, second.ending)
    decreases |a|
  {
    if |a| == 0 {
      assert a + b == b;
    } else {
      assert (a + b)[0] == a[0];
      assert (a + b)[1..] == a[1..] + b;
      RunAppend(a[1..], b);
      if a[0].ending.Completed? {
        var rest := Run(a[1..]);
        if rest.ending.Completed? {
          var second := Run(b);
          assert a[0].registered + (rest.registered + second.registered)
              == (a[0].registered + rest.registered) + second.registered;
        }
      }
    }
  }

  /** A pass that does not complete ends the run: nothing after it runs. */
  lemma RunStopsAt(passes: seq<Pass>, i: nat)
    requires i < |passes| && !passes[i].ending.Completed?
    ensures !Run(passes).ending.Completed?
    ensures Run(passes) == Run(passes[..i + 1])
  {
    assert passes == passes[..i + 1] + passes[i + 1..];
    RunAppend(passes[..i + 1], passes[i + 1..]);
    assert passes[..i + 1] == passes[..i] + [passes[i]];
    RunAppend(passes[..i], [passes[i]]);
    assert [passes[i]][1..] == [];
  }

  /** The passes of the first `i` directories are the first `i` passes. */
  lemma DirectoryPassesPrefix(directories: seq<string>, host: Host, i: nat)
    requires i <= |directories|
    ensures DirectoryPasses(directories, host)[..i] == DirectoryPasses(directories[..i], host)
  {
    PassesArePasses(directories, host);
    PassesArePasses(directories[..i], host);
    var whole := DirectoryPasses(directories, host);
    var prefix := DirectoryPasses(directories[..i], host);
    forall k | 0 <= k < i ensures whole[k] == prefix[k] {
      assert directories[..i][k] == directories[k];
      assert whole[k] == DirectoryPass(directories[k], host);
      assert prefix[k] == DirectoryPass(directories[..i][k], host);
    }
  }

  /**
   * A missing directory, the empty path included, ends the whole pass
   * (`return`, not `continue`): no directory after it is scanned, and the
   * pass does not complete.
   */
  lemma MissingDirectoryEndsPass(directories: seq<string>, host: Host, i: nat)
    requires i < |directories| && !DirectoryExists(host, host.resolve(directories[i]))
    ensures !RegistrationPass(directories, host).ending.Completed?
    ensures RegistrationPass(directories, host).registered == RegistrationPass(directories[..i], host).registered
  {
    var passes := DirectoryPasses(directories, host);
    PassesArePasses(directories, host);
    assert passes[i] == DirectoryPass(directories[i], host);
    RunStopsAt(passes, i);
    assert passes[..i + 1] == passes[..i] + [passes[i]];
    RunAppend(passes[..i], [passes[i]]);
    DirectoryPassesPrefix(directories, host, i);
  }

  /**
   * A fatal or unreadable template in a scanned directory ends the whole
   * pass, whatever directories follow.
   */
  lemma FatalEntryEndsPass(directories: seq<string>, host: Host, i: nat)
    requires i < |directories|
    requires DirectoryExists(host, host.resolve(directories[i]))
    requires !ScanEntries(host.resolve(directories[i]), host.directories[host.resolve(directories[i])], host).ending.Completed?
    ensures !RegistrationPass(directories, host).ending.Completed?
    ensures RegistrationPass(directories, host) == RegistrationPass(directories[..i + 1], host)
  {
    var passes := DirectoryPasses(directories, host);
    PassesArePasses(directories, host);
    assert passes[i] == DirectoryPass(directories[i], host);
    RunStopsAt(passes, i);
    DirectoryPassesPrefix(directories, host, i + 1);
  }
}
