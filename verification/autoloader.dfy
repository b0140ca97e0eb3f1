/** The class loader of Autoloader.php, which its doc comment calls PSR-4: a
    table from namespace prefixes to base directories (`addNamespace`), and
    the resolution of a fully-qualified class name to the first existing file,
    trying its prefixes longest first (`loadClass`, `loadMappedFile`). Its
    mapped paths depart from the PSR-4 layout; `Psr4BaseDirectory` shows how.

    The file system is a set `existing` of the paths for which `file_exists`
    holds. Every path handed to `requireFile` is recorded, in order, in the
    `probes` of an `Outcome`; when the outcome is `loaded`, the last probe is
    the file that was required.
 */
module Autoloader {
  import opened PhpStrings

  /** The namespace separator `\`. */
  const NamespaceSeparator: char := '\\'

  /** The directory separator `/` that replaces it in file paths. */
  const DirectorySeparator: char := '/'

  /** The extension appended to every mapped file. */
  const FileExtension: string := ".php"

  /** `$prefixes`: each namespace prefix with its base directories, in probe order. */
  type Table = map<string, seq<string>>

  /** The outcome of a lookup: whether a file was required, and every path
      offered to `requireFile`, in the order they were offered. */
  datatype Outcome = Outcome(loaded: bool, probes: seq<string>)

  // ---------------------------------------------------------------------
  // addNamespace
  // ---------------------------------------------------------------------

  /** The shape of a normalised prefix: it ends in a single separator and,
      unless it is that separator alone, it does not start with one. */
  predicate IsPrefixKey(key: string) {
    && |key| > 0 && key[|key| - 1] == NamespaceSeparator
    && (|key| == 1 || (key[0] != NamespaceSeparator && key[|key| - 2] != NamespaceSeparator))
  }

  /** The shape of a normalised base directory: it ends in the two characters
      `/\`, and no `/` comes right before them. */
  predicate IsStoredDirectory(dir: string) {
    && |dir| >= 2
    && dir[|dir| - 2] == DirectorySeparator && dir[|dir| - 1] == NamespaceSeparator
    && (|dir| == 2 || dir[|dir| - 3] != DirectorySeparator)
  }

  /** What `addNamespace` keeps true of the table: normalised keys, each with
      a non-empty list of normalised directories. */
  ghost predicate WellFormed(table: Table) {
    forall key :: key in table ==>
      && IsPrefixKey(key)
      && |table[key]| > 0
      && forall i :: 0 <= i < |table[key]| ==> IsStoredDirectory(table[key][i])
  }

  /** `trim($prefix, '\\') . '\\'`: the table key under which a prefix is
      registered. What comes before its final separator is the slice of the
      prefix that ends where `rtrim` stops, with nothing but separators
      around it and none at either of its own ends. */
  function NormalizePrefix(prefix: string): (key: string)
    ensures IsPrefixKey(key)
    ensures |key| - 1 <= |RTrim(prefix, NamespaceSeparator)|
    ensures var inner := key[..|key| - 1];
      var lead := |RTrim(prefix, NamespaceSeparator)| - |inner|;
      IsTrimOfAt(prefix, NamespaceSeparator, inner, lead)
  {
    var inner := Trim(prefix, NamespaceSeparator);
    var key := inner + [NamespaceSeparator];
    assert key[..|key| - 1] == inner;
    key
  }

  /** `rtrim($baseDirectory, '/') . '/'` followed by `rtrim(…, '\\') . '\\'`.
      The second `rtrim` never finds a `\` to remove, so the stored directory
      is the given one without its trailing slashes, followed by `/\`. */
  function NormalizeBaseDirectory(baseDirectory: string): (stored: string)
    ensures stored == RTrim(baseDirectory, DirectorySeparator) + [DirectorySeparator, NamespaceSeparator]
    ensures IsStoredDirectory(stored)
  {
    var slashed := RTrim(baseDirectory, DirectorySeparator) + [DirectorySeparator];
    TrimLeavesCleanEnds(slashed, NamespaceSeparator);
    RTrim(slashed, NamespaceSeparator) + [NamespaceSeparator]
  }

  /** Directories that differ only in trailing slashes are stored alike. */
  lemma NormalizeBaseDirectoryIgnoresTrailingSlashes(baseDirectory: string, n: nat)
    ensures NormalizeBaseDirectory(baseDirectory + Repeat(DirectorySeparator, n)) == NormalizeBaseDirectory(baseDirectory)
  {
    RTrimIgnoresRepeated(baseDirectory, DirectorySeparator, n);
  }

  /** The directories registered for `key`, or none. */
  function Directories(table: Table, key: string): seq<string> {
    if key in table then table[key] else []
  }

  /** `addNamespace($prefix, $baseDirectory, $prepend)`. The normalised
      directory goes in front of the key's list when `prepend` holds and
      behind it otherwise; the old list is kept whole, duplicates included,
      and no other key changes. */
  function AddNamespace(table: Table, prefix: string, baseDirectory: string, prepend: bool := false): (table': Table)
    ensures table'.Keys == table.Keys + {NormalizePrefix(prefix)}
    ensures forall key :: key in table && key != NormalizePrefix(prefix) ==> table'[key] == table[key]
    ensures |table'[NormalizePrefix(prefix)]| == |Directories(table, NormalizePrefix(prefix))| + 1
    ensures prepend ==>
      && table'[NormalizePrefix(prefix)][0] == NormalizeBaseDirectory(baseDirectory)
      && table'[NormalizePrefix(prefix)][1..] == Directories(table, NormalizePrefix(prefix))
    ensures !prepend ==>
      var dirs := Directories(table, NormalizePrefix(prefix));
      && table'[NormalizePrefix(prefix)][|dirs|] == NormalizeBaseDirectory(baseDirectory)
      && table'[NormalizePrefix(prefix)][..|dirs|] == dirs
  {
    var key := NormalizePrefix(prefix);
    var dir := NormalizeBaseDirectory(baseDirectory);
    var dirs := Directories(table, key);
    table[key := if prepend then [dir] + dirs else dirs + [dir]]
  }

  /** `addNamespace` keeps the table well formed; in particular the list of
      the key it touched is never empty afterwards. */
  lemma AddNamespacePreservesWellFormed(table: Table, prefix: string, baseDirectory: string, prepend: bool)
    requires WellFormed(table)
    ensures WellFormed(AddNamespace(table, prefix, baseDirectory, prepend))
  {
    var table' := AddNamespace(table, prefix, baseDirectory, prepend);
    var key := NormalizePrefix(prefix);
    var dirs := Directories(table, key);
    assert forall i :: 0 <= i < |dirs| ==> IsStoredDirectory(dirs[i]);
    forall i | 0 <= i < |table'[key]|
      ensures IsStoredDirectory(table'[key][i])
    {
      if prepend && i > 0 {
        assert table'[key][i] == table'[key][1..][i - 1];
      } else if !prepend && i < |dirs| {
        assert table'[key][i] == table'[key][..|dirs|][i];
      }
    }
  }

  /** The key of a prefix is fixed by the shape alone: whatever sits between
      the outer runs of `\` of the prefix, followed by one `\`, is its key. */
  lemma NormalizePrefixIsDetermined(prefix: string, inner: string, lead: int)
    requires IsTrimOfAt(prefix, NamespaceSeparator, inner, lead)
    ensures NormalizePrefix(prefix) == inner + [NamespaceSeparator]
  {
    TrimUnique(prefix, NamespaceSeparator, inner, lead);
  }

  /** The normalised keys are exactly the prefixes normalisation leaves alone. */
  lemma PrefixKeysAreFixedPoints(key: string)
    ensures IsPrefixKey(key) <==> NormalizePrefix(key) == key
  {
    if IsPrefixKey(key) {
      var inner := key[..|key| - 1];
      assert key == inner + [NamespaceSeparator];
      assert |inner| == 0 || (inner[0] == key[0] && inner[|inner| - 1] == key[|key| - 2]);
      RTrimIgnoresAppended(inner, NamespaceSeparator);
      TrimLeavesCleanEnds(inner, NamespaceSeparator);
      assert Trim(key, NamespaceSeparator) == inner;
    }
  }

  /** Normalising a normalised prefix changes nothing. */
  lemma NormalizePrefixIdempotent(prefix: string)
    ensures NormalizePrefix(NormalizePrefix(prefix)) == NormalizePrefix(prefix)
  {
    PrefixKeysAreFixedPoints(NormalizePrefix(prefix));
  }

  /** A separator added after a prefix does not change its key. */
  lemma NormalizePrefixIgnoresAppended(prefix: string)
    ensures NormalizePrefix(prefix + [NamespaceSeparator]) == NormalizePrefix(prefix)
  {
    RTrimIgnoresAppended(prefix, NamespaceSeparator);
  }

  /** A separator added before a prefix does not change its key. */
  lemma NormalizePrefixIgnoresPrepended(prefix: string)
    ensures NormalizePrefix([NamespaceSeparator] + prefix) == NormalizePrefix(prefix)
  {
    RTrimOfPrepended(prefix, NamespaceSeparator);
    LTrimIgnoresPrepended(RTrim(prefix, NamespaceSeparator), NamespaceSeparator);
  }

  /** Any number of separators added after a prefix leave its key unchanged. */
  lemma NormalizePrefixIgnoresTrailing(prefix: string, n: nat)
    ensures NormalizePrefix(prefix + Repeat(NamespaceSeparator, n)) == NormalizePrefix(prefix)
  {
    RTrimIgnoresRepeated(prefix, NamespaceSeparator, n);
  }

  /** Any number of separators added before a prefix leave its key unchanged. */
  lemma {:induction false} NormalizePrefixIgnoresLeading(prefix: string, n: nat)
    ensures NormalizePrefix(Repeat(NamespaceSeparator, n) + prefix) == NormalizePrefix(prefix)
  {
    if n > 0 {
      var shorter := Repeat(NamespaceSeparator, n - 1) + prefix;
      assert Repeat(NamespaceSeparator, n) == [NamespaceSeparator] + Repeat(NamespaceSeparator, n - 1);
      assert Repeat(NamespaceSeparator, n) + prefix == [NamespaceSeparator] + shorter;
      NormalizePrefixIgnoresPrepended(shorter);
      NormalizePrefixIgnoresLeading(prefix, n - 1);
    } else {
      assert Repeat(NamespaceSeparator, n) + prefix == prefix;
    }
  }

  /** Separators added at either end of a prefix leave its key unchanged. */
  lemma NormalizePrefixIgnoresOuterSeparators(prefix: string, before: nat, after: nat)
    ensures NormalizePrefix(Repeat(NamespaceSeparator, before) + prefix + Repeat(NamespaceSeparator, after)) == NormalizePrefix(prefix)
  {
    assert Repeat(NamespaceSeparator, before) + prefix + Repeat(NamespaceSeparator, after) == Repeat(NamespaceSeparator, before) + (prefix + Repeat(NamespaceSeparator, after));
    NormalizePrefixIgnoresLeading(prefix + Repeat(NamespaceSeparator, after), before);
    NormalizePrefixIgnoresTrailing(prefix, after);
  }

  // ---------------------------------------------------------------------
  // loadMappedFile and requireFile
  // ---------------------------------------------------------------------

  /** `requireFile($file)`: true exactly when the file exists. */
  predicate RequireFile(existing: set<string>, file: string) {
    file in existing
  }

  /** The file a base directory and a relative class name map to: the
      directory, then the relative name with every `\` turned into `/`, then
      `.php`. */
  function MappedPath(baseDirectory: string, relativeClass: string): string {
    baseDirectory + StrReplace(relativeClass, NamespaceSeparator, DirectorySeparator) + FileExtension
  }

  /** The layout of a mapped file: the base directory, the relative class name
      character by character with `\` turned into `/`, then `.php`; the part
      taken from the class name holds no `\`. */
  lemma MappedPathLayout(baseDirectory: string, relativeClass: string)
    ensures var file := MappedPath(baseDirectory, relativeClass);
      && |file| == |baseDirectory| + |relativeClass| + |FileExtension|
      && file[..|baseDirectory|] == baseDirectory
      && file[|baseDirectory| + |relativeClass|..] == FileExtension
      && (forall i :: 0 <= i < |relativeClass| ==>
            file[|baseDirectory| + i] == if relativeClass[i] == NamespaceSeparator then DirectorySeparator else relativeClass[i])
      && (forall i :: |baseDirectory| <= i < |baseDirectory| + |relativeClass| ==> file[i] != NamespaceSeparator)
  {
    var middle := StrReplace(relativeClass, NamespaceSeparator, DirectorySeparator);
    var file := MappedPath(baseDirectory, relativeClass);
    assert forall i :: 0 <= i < |relativeClass| ==> file[|baseDirectory| + i] == middle[i];
  }

  // ---------------------------------------------------------------------
  // The PSR-4 base directory, beside the one addNamespace stores
  // ---------------------------------------------------------------------

  /** Every file mapped from a stored directory holds a `\` just before the
      relative class name, whatever the directory and the class name: the
      `\` appended by `addNamespace` is never removed again. */
  lemma StoredDirectoryPathsHoldNamespaceSeparator(baseDirectory: string, relativeClass: string)
    ensures var dir := NormalizeBaseDirectory(baseDirectory);
      var file := MappedPath(dir, relativeClass);
      |dir| <= |file| && file[|dir| - 1] == NamespaceSeparator
  {
    var dir := NormalizeBaseDirectory(baseDirectory);
    MappedPathLayout(dir, relativeClass);
    var file := MappedPath(dir, relativeClass);
    assert file[|dir| - 1] == file[..|dir|][|dir| - 1];
  }

  /** `rtrim($baseDirectory, '/') . '/'` alone: the base directory with
      exactly one trailing slash, as the PSR-4 layout needs it. */
  function Psr4BaseDirectory(baseDirectory: string): (stored: string)
    ensures |stored| > 0 && stored[|stored| - 1] == DirectorySeparator
    ensures |stored| == 1 || stored[|stored| - 2] != DirectorySeparator
    ensures stored[..|stored| - 1] <= baseDirectory
    ensures forall i :: |stored| - 1 <= i < |baseDirectory| ==> baseDirectory[i] == DirectorySeparator
  {
    var kept := RTrim(baseDirectory, DirectorySeparator);
    var stored := kept + [DirectorySeparator];
    assert stored[..|stored| - 1] == kept;
    stored
  }

  /** What `addNamespace` stores is the PSR-4 directory with a `\` after it,
      so every as-written mapped file is the PSR-4 one with that `\` inserted
      where the relative class name begins. */
  lemma StoredDirectoryIsPsr4PlusSeparator(baseDirectory: string, relativeClass: string)
    ensures NormalizeBaseDirectory(baseDirectory) == Psr4BaseDirectory(baseDirectory) + [NamespaceSeparator]
    ensures var dir := Psr4BaseDirectory(baseDirectory);
      MappedPath(NormalizeBaseDirectory(baseDirectory), relativeClass)
        == dir + [NamespaceSeparator] + MappedPath(dir, relativeClass)[|dir|..]
  {
    var dir := Psr4BaseDirectory(baseDirectory);
    var stored := NormalizeBaseDirectory(baseDirectory);
    var kept := RTrim(baseDirectory, DirectorySeparator);
    assert dir == kept + [DirectorySeparator];
    assert stored == dir + [NamespaceSeparator];
    var tail := StrReplace(relativeClass, NamespaceSeparator, DirectorySeparator) + FileExtension;
    assert MappedPath(dir, relativeClass) == dir + tail;
    assert MappedPath(dir, relativeClass)[|dir|..] == tail;
    assert MappedPath(stored, relativeClass) == stored + tail;
  }

  /** For every directory and class name, the file `loadMappedFile` tries is
      not the PSR-4 file: it is one character longer. */
  lemma StoredDirectoryMissesPsr4Path(baseDirectory: string, relativeClass: string)
    ensures MappedPath(NormalizeBaseDirectory(baseDirectory), relativeClass)
      != MappedPath(Psr4BaseDirectory(baseDirectory), relativeClass)
  {
    StoredDirectoryIsPsr4PlusSeparator(baseDirectory, relativeClass);
    MappedPathLayout(NormalizeBaseDirectory(baseDirectory), relativeClass);
    MappedPathLayout(Psr4BaseDirectory(baseDirectory), relativeClass);
  }

  /** Under the PSR-4 directory, a base directory without `\` maps every
      class name to a path without `\`: the namespace separators all become
      directory separators. */
  lemma Psr4PathsHoldNoNamespaceSeparator(baseDirectory: string, relativeClass: string)
    requires forall i :: 0 <= i < |baseDirectory| ==> baseDirectory[i] != NamespaceSeparator
    ensures var file := MappedPath(Psr4BaseDirectory(baseDirectory), relativeClass);
      forall i :: 0 <= i < |file| ==> file[i] != NamespaceSeparator
  {
    var dir := Psr4BaseDirectory(baseDirectory);
    var file := MappedPath(dir, relativeClass);
    MappedPathLayout(dir, relativeClass);
    forall i | 0 <= i < |file|
      ensures file[i] != NamespaceSeparator
    {
      if i < |dir| - 1 {
        assert file[i] == file[..|dir|][i] == dir[..|dir| - 1][i] == baseDirectory[i];
      } else if i == |dir| - 1 {
        assert file[i] == file[..|dir|][i];
      } else if i >= |dir| + |relativeClass| {
        assert file[i] == file[|dir| + |relativeClass|..][i - |dir| - |relativeClass|];
      }
    }
  }

  /** The PSR-4 directory does not depend on how many trailing slashes were
      given. */
  lemma Psr4BaseDirectoryIgnoresTrailingSlashes(baseDirectory: string, n: nat)
    ensures Psr4BaseDirectory(baseDirectory + Repeat(DirectorySeparator, n)) == Psr4BaseDirectory(baseDirectory)
  {
    RTrimIgnoresRepeated(baseDirectory, DirectorySeparator, n);
  }

  /** The files `loadMappedFile` may try for `relativeClass`, one per directory. */
  function MappedPaths(dirs: seq<string>, relativeClass: string): (files: seq<string>)
    ensures |files| == |dirs|
    ensures forall i :: 0 <= i < |dirs| ==> files[i] == MappedPath(dirs[i], relativeClass)
  {
    seq(|dirs|, i requires 0 <= i < |dirs| => MappedPath(dirs[i], relativeClass))
  }

  /** `o` is what offering `files` to `requireFile` one by one yields when
      the first existing file stops the search: the probes are a leading part
      of `files`, none but the last of them exists, the outcome is loaded
      exactly when the last one does, and a failed search tried them all. */
  ghost predicate ProbedInOrder(files: seq<string>, existing: set<string>, o: Outcome) {
    && o.probes <= files
    && (forall j :: 0 <= j < |o.probes| - 1 ==> o.probes[j] !in existing)
    && (o.loaded <==> |o.probes| > 0 && o.probes[|o.probes| - 1] in existing)
    && (!o.loaded ==> o.probes == files)
  }

  /** The `foreach` of `loadMappedFile`: tries the directories in list order
      and returns at the first mapped file that exists. */
  function ProbeDirectories(dirs: seq<string>, relativeClass: string, existing: set<string>): Outcome {
    if |dirs| == 0 then Outcome(false, [])
    else
      var file := MappedPath(dirs[0], relativeClass);
      if RequireFile(existing, file) then Outcome(true, [file])
      else
        var rest := ProbeDirectories(dirs[1..], relativeClass, existing);
        Outcome(rest.loaded, [file] + rest.probes)
  }

  /** The directories are probed in list order, each for its mapped file,
      and the search stops at the first file that exists. */
  lemma {:induction false} ProbeDirectoriesInOrder(dirs: seq<string>, relativeClass: string, existing: set<string>)
    ensures ProbedInOrder(MappedPaths(dirs, relativeClass), existing, ProbeDirectories(dirs, relativeClass, existing))
  {
    if |dirs| > 0 {
      var file := MappedPath(dirs[0], relativeClass);
      var files := MappedPaths(dirs[1..], relativeClass);
      ProbeDirectoriesInOrder(dirs[1..], relativeClass, existing);
      assert MappedPaths(dirs, relativeClass) == [file] + files;
      if file !in existing {
        var rest := ProbeDirectories(dirs[1..], relativeClass, existing);
        assert ProbedInOrder(files, existing, rest);
        assert ProbeDirectories(dirs, relativeClass, existing) == Outcome(rest.loaded, [file] + rest.probes);
      }
    }
  }

  /** `loadMappedFile($prefix, $relativeClass)`. */
  function LoadMappedFile(table: Table, existing: set<string>, prefix: string, relativeClass: string): Outcome {
    if prefix !in table then Outcome(false, [])
    else ProbeDirectories(table[prefix], relativeClass, existing)
  }

  /** `loadMappedFile` probes nothing for an unregistered prefix; otherwise
      it probes the prefix's directories in order up to the first existing
      mapped file. */
  lemma LoadMappedFileProbesInOrder(table: Table, existing: set<string>, prefix: string, relativeClass: string)
    ensures var o := LoadMappedFile(table, existing, prefix, relativeClass);
      prefix !in table ==> !o.loaded && o.probes == []
    ensures var o := LoadMappedFile(table, existing, prefix, relativeClass);
      prefix in table ==> ProbedInOrder(MappedPaths(table[prefix], relativeClass), existing, o)
  {
    if prefix in table {
      ProbeDirectoriesInOrder(table[prefix], relativeClass, existing);
    }
  }

  /** `ProbedInOrder` leaves no freedom: two outcomes that meet it for the
      same files are the same outcome. */
  lemma ProbedInOrderIsDeterministic(files: seq<string>, existing: set<string>, o1: Outcome, o2: Outcome)
    requires ProbedInOrder(files, existing, o1) && ProbedInOrder(files, existing, o2)
    ensures o1 == o2
  {
    assert forall j :: 0 <= j < |o1.probes| ==> o1.probes[j] == files[j];
    assert forall j :: 0 <= j < |o2.probes| ==> o2.probes[j] == files[j];
    if o1.loaded && o2.loaded {
      assert |o1.probes| == |o2.probes|;
    }
  }

  /** A search that probes in order loads a file exactly when one of the
      candidate files exists, and then it is the first one that does. */
  lemma ProbedInOrderFindsFirstExisting(files: seq<string>, existing: set<string>, o: Outcome)
    requires ProbedInOrder(files, existing, o)
    ensures o.loaded <==> exists i :: 0 <= i < |files| && files[i] in existing
    ensures o.loaded ==> forall j :: 0 <= j < |o.probes| - 1 ==> files[j] !in existing
  {
    if !o.loaded {
      assert forall i :: 0 <= i < |files| ==> files[i] !in existing by {
        forall i | 0 <= i < |files|
          ensures files[i] !in existing
        {
          if i < |files| - 1 {
            assert o.probes[i] == files[i];
          }
        }
      }
    } else {
      assert files[|o.probes| - 1] in existing;
    }
  }

  // ---------------------------------------------------------------------
  // loadClass
  // ---------------------------------------------------------------------

  /** `c` is a prefix `loadClass` may hand to `loadMappedFile` for
      `className`: a non-empty leading part of it that ends in `\`. */
  predicate IsCandidateOf(c: string, className: string) {
    0 < |c| <= |className| && c == className[..|c|] && c[|c| - 1] == NamespaceSeparator
  }

  /** The prefixes the `while` loop of `loadClass` tries, in order, once the
      current prefix has been cut down to the first `k` characters of the
      class name: the part up to and including the last `\`, and then those
      of what is left once `rtrim` has removed the whole run of `\` there. */
  function CandidatesFrom(className: string, k: nat): (cs: seq<string>)
    requires k <= |className|
    ensures forall i :: 0 <= i < |cs| ==> IsCandidateOf(cs[i], className) && |cs[i]| <= k
    decreases k
  {
    var last := LastBefore(className, NamespaceSeparator, k);
    if last.NotFound? then []
    else [className[..last.index + 1]] + CandidatesFrom(className, RunStart(className, NamespaceSeparator, last.index + 1))
  }

  /** One step of the walk: the candidate at the last `\` comes first. */
  lemma CandidatesFromUnfold(className: string, k: nat, pos: nat)
    requires k <= |className| && LastBefore(className, NamespaceSeparator, k) == At(pos)
    ensures pos < k
    ensures CandidatesFrom(className, k)
      == [className[..pos + 1]] + CandidatesFrom(className, RunStart(className, NamespaceSeparator, pos + 1))
  {
  }

  /** The walk finds no candidate exactly when no `\` is left in the prefix. */
  lemma CandidatesFromEmpty(className: string, k: nat)
    requires k <= |className|
    ensures CandidatesFrom(className, k) == [] <==> forall i :: 0 <= i < k ==> className[i] != NamespaceSeparator
  {
  }

  /** The candidates get strictly shorter: a longer prefix is always tried
      before a shorter one. */
  lemma {:induction false} CandidatesFromShrink(className: string, k: nat)
    requires k <= |className|
    ensures var cs := CandidatesFrom(className, k);
      forall i, j :: 0 <= i < j < |cs| ==> |cs[i]| > |cs[j]|
    decreases k
  {
    var cs := CandidatesFrom(className, k);
    var last := LastBefore(className, NamespaceSeparator, k);
    if last.At? {
      var k' := RunStart(className, NamespaceSeparator, last.index + 1);
      CandidatesFromUnfold(className, k, last.index);
      CandidatesFromShrink(className, k');
      var rest := CandidatesFrom(className, k');
      assert forall j :: 0 < j < |cs| ==> cs[j] == rest[j - 1];
    }
  }

  /** Every prefix `loadClass` tries for `className`, longest first. */
  function Candidates(className: string): seq<string> {
    CandidatesFrom(className, |className|)
  }

  /** Each prefix `loadClass` tries ends in `\`, and followed by the relative
      class name handed along with it, it spells the whole class name. */
  lemma CandidatesSplitClassName(className: string, i: nat)
    requires i < |Candidates(className)|
    ensures var c := Candidates(className)[i];
      && |c| > 0 && c[|c| - 1] == NamespaceSeparator
      && c + className[|c|..] == className
  {
    var c := Candidates(className)[i];
    assert c == className[..|c|];
  }

  /** Position `p` of `className` holds the last `\` of a run of them. */
  predicate EndsSeparatorRun(className: string, p: nat) {
    && p < |className| && className[p] == NamespaceSeparator
    && (p + 1 == |className| || className[p + 1] != NamespaceSeparator)
  }

  /** Where `CandidatesFrom` may start: at the end of the name, or at the first
      `\` of a run of them. */
  predicate IsCutPoint(className: string, k: nat) {
    || k == |className|
    || (k < |className| && className[k] == NamespaceSeparator && (k == 0 || className[k - 1] != NamespaceSeparator))
  }

  /** From a cut point `k`, the walk tries the prefix ending at `p < k`
      exactly when `p` holds the last `\` of a run of separators. */
  lemma {:induction false} CandidatesFromAreRunEnds(className: string, k: nat, p: nat)
    requires k <= |className| && IsCutPoint(className, k)
    requires p < k
    ensures className[..p + 1] in CandidatesFrom(className, k) <==> EndsSeparatorRun(className, p)
    decreases k
  {
    var last := LastBefore(className, NamespaceSeparator, k);
    if last.At? {
      var pos := last.index;
      CandidatesFromUnfold(className, k, pos);
      var candidate := className[..pos + 1];
      var k' := RunStart(className, NamespaceSeparator, pos + 1);
      var rest := CandidatesFrom(className, k');
      assert CandidatesFrom(className, k) == [candidate] + rest;
      if p < k' {
        CandidatesFromAreRunEnds(className, k', p);
        assert |className[..p + 1]| != |candidate|;
      } else {
        forall i | 0 <= i < |rest|
          ensures rest[i] != className[..p + 1]
        {
          assert |rest[i]| <= k';
        }
        if p != pos {
          assert |className[..p + 1]| != |candidate|;
        }
      }
    }
  }

  /** `loadClass` tries exactly the prefixes of `className` that end at the
      last `\` of a run of separators. A `\` followed by another one is never
      a cut point, because `rtrim` removes the whole run at once. */
  lemma CandidatesAreRunEnds(className: string, p: nat)
    requires p < |className|
    ensures className[..p + 1] in Candidates(className) <==> EndsSeparatorRun(className, p)
  {
    CandidatesFromAreRunEnds(className, |className|, p);
  }

  /** For a name without doubled separators, every `\` in it gives a prefix
      that `loadClass` tries, so no namespace level is skipped. */
  lemma EveryLevelTriedWithoutDoubledSeparators(className: string, p: nat)
    requires forall i :: 0 <= i < |className| - 1 ==> !(className[i] == className[i + 1] == NamespaceSeparator)
    requires p < |className| && className[p] == NamespaceSeparator
    ensures className[..p + 1] in Candidates(className)
  {
    CandidatesAreRunEnds(className, p);
  }

  /** Every prefix in `cs` is at most as long as `className`. */
  predicate FitWithin(cs: seq<string>, className: string) {
    forall i :: 0 <= i < |cs| ==> |cs[i]| <= |className|
  }

  /** One call of `loadMappedFile` from the loop of `loadClass`: candidate
      prefix `c`, and the rest of the class name as the relative class. */
  function Attempt(table: Table, existing: set<string>, className: string, c: string): Outcome
    requires |c| <= |className|
  {
    LoadMappedFile(table, existing, c, className[|c|..])
  }

  /** Every path offered to `requireFile` when all of `cs` are attempted. */
  function AllProbes(table: Table, existing: set<string>, className: string, cs: seq<string>): seq<string>
    requires FitWithin(cs, className)
  {
    if |cs| == 0 then []
    else Attempt(table, existing, className, cs[0]).probes + AllProbes(table, existing, className, cs[1..])
  }

  /** The candidates are attempted in order, up to the first that loads a file. */
  function ResolveAlong(table: Table, existing: set<string>, className: string, cs: seq<string>): Outcome
    requires FitWithin(cs, className)
  {
    if |cs| == 0 then Outcome(false, [])
    else
      var mapped := Attempt(table, existing, className, cs[0]);
      if mapped.loaded then mapped
      else
        var rest := ResolveAlong(table, existing, className, cs[1..]);
        Outcome(rest.loaded, mapped.probes + rest.probes)
  }

  /** A recursive definition of what `loadClass` computes: attempt its
      candidates, longest first, and stop at the first that loads a file. */
  function Resolve(table: Table, existing: set<string>, className: string): Outcome {
    ResolveAlong(table, existing, className, Candidates(className))
  }

  /** Candidate `cs[i]` is the first one whose attempt loads a file. */
  ghost predicate FirstHit(table: Table, existing: set<string>, className: string, cs: seq<string>, i: nat)
    requires FitWithin(cs, className)
  {
    && i < |cs|
    && Attempt(table, existing, className, cs[i]).loaded
    && forall j :: 0 <= j < i ==> !Attempt(table, existing, className, cs[j]).loaded
  }

  /** Attempting candidates in order fails exactly when every candidate
      fails, and a failed search has made the probes of every candidate. */
  lemma {:induction false} ResolveAlongFailsOnlyIfAllFail(table: Table, existing: set<string>, className: string, cs: seq<string>)
    requires FitWithin(cs, className)
    ensures !ResolveAlong(table, existing, className, cs).loaded
      <==> forall i :: 0 <= i < |cs| ==> !Attempt(table, existing, className, cs[i]).loaded
    ensures !ResolveAlong(table, existing, className, cs).loaded
      ==> ResolveAlong(table, existing, className, cs).probes == AllProbes(table, existing, className, cs)
  {
    if |cs| > 0 {
      var tail := cs[1..];
      ResolveAlongFailsOnlyIfAllFail(table, existing, className, tail);
      assert forall i :: 0 < i < |cs| ==> cs[i] == tail[i - 1];
    }
  }

  /** When `cs[i]` is the first candidate that loads a file, attempting them
      in order loads it, with the probes of the candidates up to and including
      `cs[i]` and of no later one. */
  lemma {:induction false} ResolveAlongStopsAtFirstHit(table: Table, existing: set<string>, className: string, cs: seq<string>, i: nat)
    requires FitWithin(cs, className)
    requires FirstHit(table, existing, className, cs, i)
    ensures ResolveAlong(table, existing, className, cs) == Outcome(true, AllProbes(table, existing, className, cs[..i + 1]))
    decreases i
  {
    var head := Attempt(table, existing, className, cs[0]);
    var upTo := cs[..i + 1];
    assert upTo[0] == cs[0];
    if i == 0 {
      assert upTo[1..] == [];
    } else {
      var tail := cs[1..];
      assert FirstHit(table, existing, className, tail, i - 1) by {
        assert forall j :: 0 <= j < i - 1 ==> tail[j] == cs[j + 1];
        assert tail[i - 1] == cs[i];
      }
      ResolveAlongStopsAtFirstHit(table, existing, className, tail, i - 1);
      assert upTo[1..] == tail[..i];
    }
  }

  /** `loadClass` loads a file exactly when one of the prefixes it may try
      has a mapped file that exists; when it loads none, it has offered
      `requireFile` the mapped files of every such prefix, longest first. */
  lemma ResolveLoadsIffSomeCandidateLoads(table: Table, existing: set<string>, className: string)
    ensures var cs := Candidates(className);
      (Resolve(table, existing, className).loaded
       <==> exists i :: 0 <= i < |cs| && Attempt(table, existing, className, cs[i]).loaded)
    ensures var cs := Candidates(className);
      (!Resolve(table, existing, className).loaded
       ==> Resolve(table, existing, className).probes == AllProbes(table, existing, className, cs))
  {
    ResolveAlongFailsOnlyIfAllFail(table, existing, className, Candidates(className));
  }

  /** `AfterProbes(probes, o)`: `o`, after `probes` were already made. */
  function AfterProbes(probes: seq<string>, o: Outcome): Outcome {
    Outcome(o.loaded, probes + o.probes)
  }

  /** One attempt, then the rest: a failed attempt's probes come before
      everything the remaining candidates probe. */
  lemma ResolveAlongStep(table: Table, existing: set<string>, className: string, c: string, rest: seq<string>)
    requires |c| <= |className| && FitWithin(rest, className)
    ensures FitWithin([c] + rest, className)
    ensures var mapped := Attempt(table, existing, className, c);
      ResolveAlong(table, existing, className, [c] + rest)
        == if mapped.loaded then mapped else AfterProbes(mapped.probes, ResolveAlong(table, existing, className, rest))
  {
    assert ([c] + rest)[1..] == rest;
  }

  /** Probes made in two batches are the probes of both, in order. */
  lemma AfterProbesAssociative(first: seq<string>, second: seq<string>, o: Outcome)
    ensures AfterProbes(first, AfterProbes(second, o)) == AfterProbes(first + second, o)
  {
  }

  /** One turn of the loop of `loadClass`, with `k` characters of the class
      name left as the current prefix and the last `\` among them at `pos`:
      if the walk still owes `target` after `probes`, the attempt at
      `className[..pos + 1]` either loads a file, which ends the walk, or adds
      its probes and leaves the walk to go on from where `rtrim` cuts that
      prefix. */
  lemma WalkStep(table: Table, existing: set<string>, className: string, k: nat, pos: nat,
                 probes: seq<string>, target: Outcome)
    requires k <= |className| && LastBefore(className, NamespaceSeparator, k) == At(pos)
    requires target == AfterProbes(probes, ResolveAlong(table, existing, className, CandidatesFrom(className, k)))
    ensures pos < k
    ensures var mapped := Attempt(table, existing, className, className[..pos + 1]);
      mapped.loaded ==> target == Outcome(true, probes + mapped.probes)
    ensures var mapped := Attempt(table, existing, className, className[..pos + 1]);
      var rest := CandidatesFrom(className, RunStart(className, NamespaceSeparator, pos + 1));
      !mapped.loaded ==> target == AfterProbes(probes + mapped.probes, ResolveAlong(table, existing, className, rest))
  {
    CandidatesFromUnfold(className, k, pos);
    var shorter := CandidatesFrom(className, RunStart(className, NamespaceSeparator, pos + 1));
    var mapped := Attempt(table, existing, className, className[..pos + 1]);
    ResolveAlongStep(table, existing, className, className[..pos + 1], shorter);
    AfterProbesAssociative(probes, mapped.probes, ResolveAlong(table, existing, className, shorter));
  }

  /** A class name without any `\` has no candidate prefix: nothing is probed
      and nothing is loaded. */
  lemma ResolveWithoutSeparator(table: Table, existing: set<string>, className: string)
    requires forall i :: 0 <= i < |className| ==> className[i] != NamespaceSeparator
    ensures Resolve(table, existing, className) == Outcome(false, [])
  {
    CandidatesFromEmpty(className, |className|);
  }

  /** `path` holds a `\` somewhere. */
  predicate HoldsNamespaceSeparator(path: string) {
    exists i :: 0 <= i < |path| && path[i] == NamespaceSeparator
  }

  /** Every one of `paths` holds a `\`. */
  predicate AllHoldNamespaceSeparator(paths: seq<string>) {
    forall j :: 0 <= j < |paths| ==> HoldsNamespaceSeparator(paths[j])
  }

  /** A file mapped from a stored directory holds the `\` that ends it. */
  lemma StoredMappedPathHoldsSeparator(dir: string, relativeClass: string)
    requires IsStoredDirectory(dir)
    ensures HoldsNamespaceSeparator(MappedPath(dir, relativeClass))
  {
    var file := MappedPath(dir, relativeClass);
    MappedPathLayout(dir, relativeClass);
    assert file[|dir| - 1] == file[..|dir|][|dir| - 1] == NamespaceSeparator;
  }

  /** Every file the `foreach` offers from stored directories holds a `\`. */
  lemma {:induction false} ProbeDirectoriesHoldSeparator(dirs: seq<string>, relativeClass: string, existing: set<string>)
    requires forall i :: 0 <= i < |dirs| ==> IsStoredDirectory(dirs[i])
    ensures AllHoldNamespaceSeparator(ProbeDirectories(dirs, relativeClass, existing).probes)
  {
    if |dirs| > 0 {
      var file := MappedPath(dirs[0], relativeClass);
      StoredMappedPathHoldsSeparator(dirs[0], relativeClass);
      if !RequireFile(existing, file) {
        var rest := ProbeDirectories(dirs[1..], relativeClass, existing).probes;
        ProbeDirectoriesHoldSeparator(dirs[1..], relativeClass, existing);
        var probes := ProbeDirectories(dirs, relativeClass, existing).probes;
        assert probes == [file] + rest;
        forall j | 0 <= j < |probes|
          ensures HoldsNamespaceSeparator(probes[j])
        {
          if j == 0 {
            assert probes[j] == file;
          } else {
            assert probes[j] == rest[j - 1];
          }
        }
      }
    }
  }

  /** Over a well-formed table, every path the candidates `cs` offer to
      `requireFile` holds a `\`. */
  lemma {:induction false} ResolveAlongProbesHoldSeparator(table: Table, existing: set<string>, className: string, cs: seq<string>)
    requires WellFormed(table)
    requires FitWithin(cs, className)
    ensures AllHoldNamespaceSeparator(ResolveAlong(table, existing, className, cs).probes)
  {
    if |cs| > 0 {
      var mapped := Attempt(table, existing, className, cs[0]).probes;
      if cs[0] in table {
        var dirs := table[cs[0]];
        assert forall i :: 0 <= i < |dirs| ==> IsStoredDirectory(dirs[i]);
        assert mapped == ProbeDirectories(dirs, className[|cs[0]|..], existing).probes;
        ProbeDirectoriesHoldSeparator(dirs, className[|cs[0]|..], existing);
      }
      assert AllHoldNamespaceSeparator(mapped);
      if !Attempt(table, existing, className, cs[0]).loaded {
        var rest := ResolveAlong(table, existing, className, cs[1..]).probes;
        ResolveAlongProbesHoldSeparator(table, existing, className, cs[1..]);
        var probes := ResolveAlong(table, existing, className, cs).probes;
        assert probes == mapped + rest;
        forall j | 0 <= j < |probes|
          ensures HoldsNamespaceSeparator(probes[j])
        {
          if j < |mapped| {
            assert probes[j] == mapped[j];
          } else {
            assert probes[j] == rest[j - |mapped|];
          }
        }
      }
    }
  }

  /** For any table `addNamespace` can build, any files and any class name,
      `loadClass` never offers the PSR-4 file of a base directory without
      `\` to `requireFile`: every path it offers holds a `\`. */
  lemma LoadClassNeverProbesPsr4Path(table: Table, existing: set<string>, className: string, baseDirectory: string, relativeClass: string)
    requires WellFormed(table)
    requires forall i :: 0 <= i < |baseDirectory| ==> baseDirectory[i] != NamespaceSeparator
    ensures MappedPath(Psr4BaseDirectory(baseDirectory), relativeClass) !in Resolve(table, existing, className).probes
  {
    var file := MappedPath(Psr4BaseDirectory(baseDirectory), relativeClass);
    var probes := Resolve(table, existing, className).probes;
    ResolveAlongProbesHoldSeparator(table, existing, className, Candidates(className));
    Psr4PathsHoldNoNamespaceSeparator(baseDirectory, relativeClass);
    assert !HoldsNamespaceSeparator(file);
  }

  /** The cut `loadClass` makes in its current prefix: the last `\` of the
      prefix is the last `\` among the first `|prefix|` characters of the
      class name, and `rtrim` of the part up to it is a strictly shorter
      leading part of the class name, ending where that run of `\` starts. */
  lemma CutAtLastSeparator(className: string, prefix: string, pos: nat)
    requires |prefix| <= |className| && prefix == className[..|prefix|]
    requires StrRPos(prefix, NamespaceSeparator) == At(pos)
    ensures pos < |prefix| && LastBefore(className, NamespaceSeparator, |prefix|) == At(pos)
    ensures var next := RTrim(className[..pos + 1], NamespaceSeparator);
      && |next| == RunStart(className, NamespaceSeparator, pos + 1) && |next| < |prefix|
      && next == className[..|next|]
  {
    StrRPosOfPrefix(className, NamespaceSeparator, |prefix|);
    RTrimOfPrefix(className, NamespaceSeparator, pos + 1);
  }

  /** One turn of the loop of `loadClass`, stated on the variables of the
      loop: with `prefix` the part of the class name still to be walked and
      `pos` its last `\`, the attempt at `className[..pos + 1]` either loads
      a file, ending the walk with everything owed, or leaves the walk to go on
      from `rtrim` of that prefix, which is shorter and still a prefix of the
      class name. */
  lemma LoadClassTurn(table: Table, existing: set<string>, className: string, prefix: string,
                      pos: nat, probes: seq<string>, target: Outcome)
    requires |prefix| <= |className| && prefix == className[..|prefix|]
    requires StrRPos(prefix, NamespaceSeparator) == At(pos)
    requires target == AfterProbes(probes, ResolveAlong(table, existing, className, CandidatesFrom(className, |prefix|)))
    ensures pos < |prefix|
    ensures var mapped := LoadMappedFile(table, existing, className[..pos + 1], className[pos + 1..]);
      mapped.loaded ==> target == Outcome(true, probes + mapped.probes)
    ensures var mapped := LoadMappedFile(table, existing, className[..pos + 1], className[pos + 1..]);
      var next := RTrim(className[..pos + 1], NamespaceSeparator);
      !mapped.loaded ==>
        && |next| < |prefix| && next == className[..|next|]
        && target == AfterProbes(probes + mapped.probes, ResolveAlong(table, existing, className, CandidatesFrom(className, |next|)))
  {
    CutAtLastSeparator(className, prefix, pos);
    WalkStep(table, existing, className, |prefix|, pos, probes, target);
    var c := className[..pos + 1];
    assert Attempt(table, existing, className, c) == LoadMappedFile(table, existing, c, className[pos + 1..]);
  }

  /** When no `\` is left in `prefix`, the walk owes nothing more than the
      probes already made. */
  lemma LoadClassExhausted(table: Table, existing: set<string>, className: string, prefix: string,
                           probes: seq<string>, target: Outcome)
    requires |prefix| <= |className| && prefix == className[..|prefix|]
    requires StrRPos(prefix, NamespaceSeparator) == NotFound
    requires target == AfterProbes(probes, ResolveAlong(table, existing, className, CandidatesFrom(className, |prefix|)))
    ensures target == Outcome(false, probes)
  {
    StrRPosOfPrefix(className, NamespaceSeparator, |prefix|);
    CandidatesFromEmpty(className, |prefix|);
  }

  /** `loadClass($class)`: walks the class name from the right, trying the
      part up to each `\` as a prefix and the rest as the relative class name,
      and returns at the first prefix under which a mapped file exists. */
  method LoadClass(table: Table, existing: set<string>, className: string) returns (o: Outcome)
    ensures o == Resolve(table, existing, className)
  {
    var prefix := className;
    var probes: seq<string> := [];
    var pos := StrRPos(prefix, NamespaceSeparator);
    while pos.At?
      invariant |prefix| <= |className| && prefix == className[..|prefix|]
      invariant pos == StrRPos(prefix, NamespaceSeparator)
      invariant Resolve(table, existing, className) == AfterProbes(probes, ResolveAlong(table, existing, className, CandidatesFrom(className, |prefix|)))
      decreases |prefix|
    {
      LoadClassTurn(table, existing, className, prefix, pos.index, probes, Resolve(table, existing, className));
      prefix := className[..pos.index + 1];
      var relativeClass := className[pos.index + 1..];
      var mapped := LoadMappedFile(table, existing, prefix, relativeClass);
      probes := probes + mapped.probes;
      if mapped.loaded {
        return Outcome(true, probes);
      }
      prefix := RTrim(prefix, NamespaceSeparator);
      pos := StrRPos(prefix, NamespaceSeparator);
    }
    LoadClassExhausted(table, existing, className, prefix, probes, Resolve(table, existing, className));
    return Outcome(false, probes);
  }
}
