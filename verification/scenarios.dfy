/** Concrete cases of the autoloader, written out as lemmas: how prefixes and
    directories are stored, and which prefixes `loadClass` skips.
 */
module AutoloaderScenarios {
  import opened PhpStrings
  import opened Autoloader

  /** A base directory keeps one `/` and gains a `\` after it. */
  lemma DirectoryGainsBothSeparators()
    ensures NormalizeBaseDirectory("/src/App//") == "/src/App/\\"
  {
    NormalizeBaseDirectoryIgnoresTrailingSlashes("/src/App", 2);
    assert "/src/App" + Repeat(DirectorySeparator, 2) == "/src/App//";
    TrimLeavesCleanEnds("/src/App", DirectorySeparator);
  }

  /** In `A\\B` the first of the two separators never ends a prefix that is
      tried: `A\` is skipped, and only `A\\` is handed to `loadMappedFile`. */
  lemma DoubledSeparatorSkipsALevel()
    ensures "A\\" !in Candidates("A\\\\B")
    ensures "A\\\\" in Candidates("A\\\\B")
  {
    var name := "A\\\\B";
    CandidatesAreRunEnds(name, 1);
    CandidatesAreRunEnds(name, 2);
    assert name[..2] == "A\\" && name[..3] == "A\\\\";
  }

  /** `addNamespace('App\\', '/src/App/')` into an empty table, then
      `loadClass('App\\Model\\User')`, whatever files exist: the PSR-4 file
      `/src/App/Model/User.php` is never offered to `requireFile`. */
  lemma StoredDirectoryMissesPsr4File(prefix: string, baseDirectory: string, className: string, existing: set<string>)
    requires prefix == "App\\" && baseDirectory == "/src/App/" && className == "App\\Model\\User"
    ensures "/src/App/Model/User.php" !in Resolve(AddNamespace(map[], prefix, baseDirectory), existing, className).probes
  {
    var table := AddNamespace(map[], prefix, baseDirectory);
    AddNamespacePreservesWellFormed(map[], prefix, baseDirectory, false);
    Psr4DirectoryFindsPsr4File(baseDirectory, "Model\\User");
    SlashedDirectoryIsKept(baseDirectory);
    LoadClassNeverProbesPsr4Path(table, existing, className, baseDirectory, "Model\\User");
  }

  /** With the PSR-4 directory the same registration maps `App\Model\User`
      to `/src/App/Model/User.php`. */
  lemma Psr4DirectoryFindsPsr4File(baseDirectory: string, relativeClass: string)
    requires baseDirectory == "/src/App/" && relativeClass == "Model\\User"
    ensures MappedPath(Psr4BaseDirectory(baseDirectory), relativeClass) == "/src/App/Model/User.php"
  {
    SlashedDirectoryIsKept(baseDirectory);
    ModelUserBecomesPath(relativeClass);
  }

  /** `/src/App/` already ends in exactly one slash, and holds no `\`. */
  lemma SlashedDirectoryIsKept(baseDirectory: string)
    requires baseDirectory == "/src/App/"
    ensures Psr4BaseDirectory(baseDirectory) == baseDirectory
    ensures forall i :: 0 <= i < |baseDirectory| ==> baseDirectory[i] != NamespaceSeparator
  {
    Psr4BaseDirectoryIgnoresTrailingSlashes("/src/App", 1);
    assert "/src/App" + Repeat(DirectorySeparator, 1) == baseDirectory;
    TrimLeavesCleanEnds("/src/App", DirectorySeparator);
  }

  /** `Model\User` becomes the path `Model/User`. */
  lemma ModelUserBecomesPath(relativeClass: string)
    requires relativeClass == "Model\\User"
    ensures StrReplace(relativeClass, NamespaceSeparator, DirectorySeparator) == "Model/User"
  {
    var middle := StrReplace(relativeClass, NamespaceSeparator, DirectorySeparator);
    assert |middle| == 10;
    forall i | 0 <= i < 10
      ensures middle[i] == "Model/User"[i]
    {
    }
  }
}
