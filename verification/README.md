# The autoloader of `Autoloader.php`, modelled in Dafny

The model covers the class loader of `Autoloader.php`. Its doc comment (line 12) says the class implements PSR-4. Where `\` is not a directory separator (Linux, macOS), the files it looks for do not follow the PSR-4 layout, as "## Findings" shows.

- `addNamespace` keeps a table from namespace prefixes to ordered lists of base directories.
- `loadClass` walks a fully-qualified class name from the right. For each candidate prefix, it asks `loadMappedFile` to look for a file.
- `loadMappedFile` probes `directory + relative-name-with-\-turned-into-/ + ".php"` for each of the prefix's directories, in list order. It stops at the first file that exists.

The model is three files:

- `php_strings.dfy` (module `PhpStrings`) holds the PHP string built-ins the class uses: `rtrim`, `trim`, `strrpos` and `str_replace`, for the single-character arguments the class passes. `LTrim` is a helper that `Trim` is built from. Strings are sequences of characters.
- `autoloader.dfy` (module `Autoloader`) holds the prefix table and the two normalisations of `addNamespace`. It also holds `loadMappedFile` and `requireFile`, a recursive definition of what `loadClass` computes (`Resolve`), and `loadClass` itself. `LoadClass` is a method with the same `while` loop as the source, proved equal to `Resolve`.
- `scenarios.dfy` (module `AutoloaderScenarios`) holds a few concrete cases.

The file system is a parameter: a set `existing` of the paths for which `file_exists` holds. `requireFile($file)` is membership in that set. Every lookup returns an `Outcome`. It holds the boolean that the source returns, and `probes`: every path offered to `requireFile`, in order. Probe order, short-circuiting and "nothing else was probed" can therefore be stated.

Three consequences of what the code computes are easy to miss. The model states each of them as it is:

- **Stored directory.** The comment at line 52 promises "a trailing separator". Lines 53–54 compute `rtrim(d, '/') . '/'` and then `rtrim(…, '\\') . '\\'`. The second `rtrim` never finds a `\` to remove, so the stored directory is always `rtrim(d, '/')` followed by the two characters `/\`. Mapped paths look like `/src/App/\User.php`. Where `\` is not a directory separator (Linux, macOS), such a path never names the PSR-4 file; "## Findings" records this. On Windows the file functions read `\` as a directory separator and reach the PSR-4 file anyway. The lemmas compare path strings, so what they state holds on every platform.
- **Key of an empty prefix.** `trim` of an empty or all-`\` prefix is empty, so line 50 stores such a prefix under the key `\`.
- **Skipped levels.** The comment at line 80 says the loop works backwards through the namespace names. The comment at line 94 speaks of removing "the trailing namespace separator", but line 95's `rtrim` strips the whole run of trailing `\` at once. So for a name with `\\` in it, the prefix ending at the first `\` of the pair is never tried. `CandidatesAreRunEnds` states exactly which prefixes are tried. `EveryLevelTriedWithoutDoubledSeparators` shows that no level is skipped when there are no doubled separators.

## Model

| member | source | states |
|---|---|---|
| PhpStrings.RTrim | Autoloader.php:95 | `rtrim` with one character: the result is a leading part of the string, only that character was removed, and the result does not end in it |
| PhpStrings.RTrimUnique | Autoloader.php:95 | those three conditions admit exactly one string, so they define `rtrim` |
| PhpStrings.Trim | Autoloader.php:50 | `trim` with one character: the result is the slice between a run of that character at the start and one at the end, and it neither starts nor ends with the character |
| PhpStrings.StrRPos | Autoloader.php:81 | `strrpos`: `false` exactly when the character does not occur, otherwise a position holding it with no occurrence after it |
| PhpStrings.StrReplace | Autoloader.php:122 | `str_replace` of one character: same length, every occurrence replaced, every other character kept in place, and none of the replaced character left |
| PhpStrings.TrimUnique | Autoloader.php:50 | those conditions admit exactly one string, wherever it starts, so they define `trim` |
| PhpStrings.RTrimIgnoresRepeated | Autoloader.php:53 | any number of extra trailing characters are trimmed to the same result |
| Autoloader.NormalizePrefix | Autoloader.php:50 | the key ends in `\`. It has no other `\` at either end. What precedes the final `\` is the prefix with its outer `\` removed |
| Autoloader.NormalizePrefixIsDetermined | Autoloader.php:50 | whatever lies between the outer runs of `\` of a prefix, followed by one `\`, is its key, so the contract of `NormalizePrefix` fixes the key |
| Autoloader.PrefixKeysAreFixedPoints | Autoloader.php:50 | a string has the shape of a key exactly when normalising it leaves it unchanged |
| Autoloader.NormalizePrefixIdempotent | Autoloader.php:50 | normalising a key again changes nothing |
| Autoloader.NormalizePrefixIgnoresOuterSeparators | Autoloader.php:50 | any number of `\` added before and after a prefix leave its key unchanged, so `A\B` and `\A\B\\` share a key |
| Autoloader.NormalizePrefixIgnoresTrailing | Autoloader.php:50 | any number of trailing `\` leave the key unchanged |
| Autoloader.NormalizePrefixIgnoresLeading | Autoloader.php:50 | any number of leading `\` leave the key unchanged |
| Autoloader.NormalizeBaseDirectory | Autoloader.php:53-54 | the stored directory is the given one without its trailing `/`, followed by `/\`. It ends in `/\` with no `/` just before that |
| Autoloader.NormalizeBaseDirectoryIgnoresTrailingSlashes | Autoloader.php:53 | directories that differ only in trailing `/` are stored alike |
| Autoloader.AddNamespace | Autoloader.php:47-67 | `prepend` defaults to `false`. The key set gains exactly the normalised key, and every other key keeps its list. The key's list grows by one: with `prepend` the new directory comes first and the old list follows unchanged; otherwise the old list comes first, then the new directory. Duplicates are kept |
| Autoloader.AddNamespacePreservesWellFormed | Autoloader.php:56-66 | after `addNamespace`, every key is normalised and has a non-empty list of normalised directories |
| Autoloader.MappedPathLayout | Autoloader.php:121-123 | specifies `MappedPath`: the mapped file is the directory, then the relative name character by character with `\` turned into `/`, then `.php`. The middle part has the relative name's length and holds no `\` |
| Autoloader.ProbeDirectoriesInOrder | Autoloader.php:117-132 | specifies `ProbeDirectories`, the `foreach`, with `RequireFile` as the existence test: the directories' mapped files are offered in list order. None but the last probe exists. The search loads exactly when the last probe exists, and a failed search has offered every file |
| Autoloader.LoadMappedFileProbesInOrder | Autoloader.php:109-133 | specifies `LoadMappedFile`: an unregistered prefix loads nothing and probes nothing. A registered prefix probes its directories in order, up to the first existing file |
| Autoloader.ProbedInOrderIsDeterministic | Autoloader.php:117-132 | probing in order leaves no choice: one outcome meets it for given files |
| Autoloader.ProbedInOrderFindsFirstExisting | Autoloader.php:117-132 | probing in order loads exactly when some mapped file exists, and then no earlier mapped file exists |
| Autoloader.CandidatesFrom | Autoloader.php:81-95 | each prefix the loop tries is a non-empty leading part of the class name that ends in `\`, no longer than the prefix the loop had left |
| Autoloader.CandidatesFromShrink | Autoloader.php:81-95 | the prefixes tried get strictly shorter, so the longest is tried first |
| Autoloader.CandidatesSplitClassName | Autoloader.php:83-86 | each prefix tried ends in `\`, and followed by its relative class name it spells the class name |
| Autoloader.CandidatesAreRunEnds | Autoloader.php:81-95 | the prefix ending at position `p` is tried exactly when `p` holds the last `\` of a run of separators |
| Autoloader.EveryLevelTriedWithoutDoubledSeparators | Autoloader.php:81-95 | in a name without doubled `\`, the prefix up to every `\` is tried |
| Autoloader.ResolveAlongFailsOnlyIfAllFail | Autoloader.php:89-99 | the walk fails exactly when every prefix's lookup fails, and then it has made every lookup's probes |
| Autoloader.ResolveAlongStopsAtFirstHit | Autoloader.php:89-92 | when a prefix is the first whose lookup loads a file, the walk loads it. Its probes are those of that prefix and the ones before it, and no shorter prefix is probed |
| Autoloader.ResolveLoadsIffSomeCandidateLoads | Autoloader.php:81-99 | specifies `Resolve`: `loadClass` loads a file exactly when the lookup for one of its prefixes does. When none does, it has probed every prefix's mapped files, longest prefix first |
| Autoloader.ResolveWithoutSeparator | Autoloader.php:81-99 | specifies `Resolve`: a class name without `\` loads nothing and probes nothing |
| Autoloader.CutAtLastSeparator | Autoloader.php:81-95 | the cut made in one turn of the loop: `rtrim` leaves a strictly shorter leading part of the class name, ending where the run of `\` at the cut starts |
| Autoloader.WalkStep | Autoloader.php:81-95 | one turn of the walk, stated on positions in the class name: the attempt either loads, which settles the outcome, or adds its probes and hands the rest to the shorter prefix |
| Autoloader.LoadClassTurn | Autoloader.php:81-95 | one turn of the loop, stated on the loop's variables. The prefix shrinks and stays a leading part of the class name. Everything still owed is either settled by a load or moved to the shortened prefix |
| Autoloader.LoadClassExhausted | Autoloader.php:81-99 | once no `\` is left in the prefix, nothing more is owed than the probes already made |
| Autoloader.LoadClass | Autoloader.php:75-100 | the `while` loop of `loadClass` terminates and returns exactly the outcome of `Resolve`: the candidates are tried longest first, and the loop stops at the first that loads a file |
| Autoloader.StoredDirectoryPathsHoldNamespaceSeparator | Autoloader.php:53-54 | every file mapped from a stored directory holds a `\` just before the relative class name, whatever the directory and the class name |
| Autoloader.StoredDirectoryMissesPsr4Path | Autoloader.php:54 | for every directory and class name, the file `loadMappedFile` tries is not the file that the PSR-4 layout (line 12, the comment at lines 118-120) maps it to |
| Autoloader.Psr4BaseDirectory | Autoloader.php:53 | the PSR-4 base directory: it ends in exactly one `/`, it is a leading part of the given directory up to that `/`, and only `/` of the given directory is dropped |
| Autoloader.Psr4BaseDirectoryIgnoresTrailingSlashes | Autoloader.php:53 | directories that differ only in trailing `/` get the same PSR-4 directory |
| Autoloader.StoredDirectoryIsPsr4PlusSeparator | Autoloader.php:53-54 | the stored directory is the PSR-4 directory followed by `\`, and each mapped file is the PSR-4 one with that `\` inserted where the relative class name begins |
| Autoloader.Psr4PathsHoldNoNamespaceSeparator | Autoloader.php:118-123 | under the PSR-4 directory, a directory without `\` maps every class name to a path without `\` |
| Autoloader.StoredMappedPathHoldsSeparator | Autoloader.php:54 | a file mapped from a stored directory holds a `\` |
| Autoloader.ProbeDirectoriesHoldSeparator | Autoloader.php:117-132 | when every directory is a stored one, every file the `foreach` offers to `requireFile` holds a `\` |
| Autoloader.ResolveAlongProbesHoldSeparator | Autoloader.php:81-99 | over a table `addNamespace` keeps well formed, every file offered along any candidates holds a `\` |
| Autoloader.LoadClassNeverProbesPsr4Path | Autoloader.php:54 | for every well-formed table, set of existing files and class name, `loadClass` never offers the PSR-4 file of a base directory without `\` to `requireFile` |
| AutoloaderScenarios.StoredDirectoryMissesPsr4File | Autoloader.php:54 | after `addNamespace('App\\', '/src/App/')` on an empty table, `loadClass('App\\Model\\User')` never offers `/src/App/Model/User.php` to `requireFile`, whatever files exist |
| AutoloaderScenarios.Psr4DirectoryFindsPsr4File | Autoloader.php:118-123 | with the PSR-4 directory, the same registration maps `App\Model\User` to `/src/App/Model/User.php` |
| AutoloaderScenarios.DirectoryGainsBothSeparators | Autoloader.php:53-54 | `/src/App//` is stored as `/src/App/\` |
| AutoloaderScenarios.DoubledSeparatorSkipsALevel | Autoloader.php:95 | for `A\\B` the prefix `A\` is never tried, and `A\\` is |

## Left out

- `register` and `unregister` (lines 27–38) only hand `loadClass` to PHP's `spl_autoload_register` stack, which is host-runtime plumbing.
- The body of `requireFile` (lines 141–148) is replaced by membership in the set `existing`. The model covers neither the `require` itself, nor the code it runs, nor the errors it may raise. The file system is taken not to change during one lookup.
- The order of keys in PHP's `$prefixes` array is not modelled. Only lookup by key matters, so a Dafny `map` stands in for it.
- PHP strings are byte strings. The model uses sequences of characters, so multi-byte characters count as one.
- Return values: the source's `loadClass` and `loadMappedFile` return only a boolean. The model also returns the sequence of probed paths, and its `loaded` field is the source's return value.
- `LoadMappedFile` is a function, and its `foreach` becomes the recursion of `ProbeDirectories`. Only `loadClass` keeps its `while` loop as a method.

## Findings

| source | as written | input that shows it | evidently intended | confidence | as-written member | corrected member |
|---|---|---|---|---|---|---|
| Autoloader.php:54 | after `rtrim(d, '/') . '/'`, line 54 appends `\` to every base directory, so each mapped file holds a `\` between the directory and the relative class path | `addNamespace('App\\', '/src/App/')` and then `loadClass('App\\Model\\User')`: the file built is `/src/App/\Model/User.php`, and `/src/App/Model/User.php` is never offered to `requireFile`, whatever files exist | the PSR-4 mapping that line 12 and the comment at lines 118-120 promise (section 2.3 of PSR-4): the base directory with one trailing `/`, so the file is `/src/App/Model/User.php` | high where `\` is not a directory separator (Linux, macOS); not executed | Autoloader.LoadClassNeverProbesPsr4Path | Autoloader.Psr4BaseDirectory |

`AutoloaderScenarios.StoredDirectoryMissesPsr4File` is the input of the row, as written: it runs `addNamespace` and then `loadClass` and proves the PSR-4 file is never probed. `Autoloader.StoredDirectoryMissesPsr4Path` shows, for every directory and class name, that the path string tried differs from the PSR-4 one. `Autoloader.Psr4PathsHoldNoNamespaceSeparator` and `AutoloaderScenarios.Psr4DirectoryFindsPsr4File` prove the PSR-4 layout of the corrected directory. On Windows, PHP's file functions treat `\` as a directory separator, so `/src/App/\Model/User.php` reaches the PSR-4 file there and line 54 does no harm. `AddNamespace`, `LoadMappedFile` and `LoadClass` keep the normaliser as written (`NormalizeBaseDirectory`), because they model what the code does. `Psr4BaseDirectory` stands beside it with the PSR-4 layout proved. `StoredDirectoryIsPsr4PlusSeparator` relates the two: they differ by exactly the one `\`.
