# Groovy script scanner, modelled in Dafny

`GroovyScriptScanner` is a Spring `ApplicationContextAware` bean. When the container
hands it the application context, it does four things:

1. It builds a scan root, `<working directory>/<projectClassPath>/<basePackge>`, with every
   `.` of the base package turned into `/`.
2. It walks that directory depth first. In each directory it collects the entries whose
   name ends with the suffix, in listing order, then appends what it finds in each
   sub-directory, in listing order.
3. It derives a bean id from each file name.
4. It registers one `GroovyScriptFactory` bean definition per file under that id. The
   definition carries the refresh delay, the language `groovy` and the `file:` location.

The model has four modules, one per concern:

- `JavaStrings` (`strings.dfy`): the Java `String` operations the scanner uses.
  These are `endsWith`, both forms of `replace`, and the `+` of a possibly `null` string.
- `Files` (`files.dfy`): a `File` is a `Node` of a finite tree. `listFiles` yields either a
  listing in order or `NoListing` (Java's `null`). `Discover` is the discovery
  specification. `Found` is an independent description of what should be found.
- `BeanDefinitions` (`registry.dfy`): the definition record, and the registry as a
  `map<string, Definition>` where a write overwrites. `Apply` folds a list of
  registrations over a map. The `BeanRegistry` class holds the map and a ghost log of
  every registration.
- `Scanner` (`scanner.dfy`): the `GroovyScriptScanner` class with its four configuration
  fields, getters and setters, and the methods `GetFile`, `GetScriptFiles` and
  `SetApplicationContext`. It also holds the pure functions `ScanRoot`, `BeanId` and
  `ScriptDefinition`, and the lemmas about the scan as a whole.

The model follows the code where it differs from what the source's own comments describe.
Those comments are at `GroovyScriptScanner.java`:
- line 64: lower-case the first letter of the class name;
- lines 76-77 and 93-95: return the files with the given suffix under the package and its
  sub-packages;
- line 99: the `Assert.notNull` message, "the given path must not be empty".

The differences:

- The bean id is computed as written. Every occurrence of the name's first character is
  lower-cased, not just index 0. Every occurrence of the suffix is removed, not just a
  trailing one (`BeanIdRepeatedFirstLetter`, `BeanIdRemovesInnerSuffix`).
  `BeanIdAsIntended` states a condition under which this agrees with the intended "lower-case index 0, strip
  the trailing suffix" rule.
- The suffix filter does not check that an entry is a file. A directory named `x.groovy`
  is returned and also searched (`SuffixDirectoryIsReturnedAndSearched`).
- A missing or unreadable scan root is not an error. `Assert.notNull` only checks the
  `File` object. `listFiles()` then returns `null`, the result is empty and nothing is
  registered (`MissingRootRegistersNothing`).
- A failing `getCanonicalPath` (lines 138-147) does not stop the scan. The exception is
  printed and swallowed, the root path stays `null`, and string concatenation turns it into the text
  `"null"`. `ScanRoot` models this with `NullableString`.
- A repeated id overwrites silently (last write wins), because the registry is a keyed map.

## Model

| member | source | states |
|---|---|---|
| `Scanner.GroovyScriptScanner.constructor` | src/main/java/com/github/timoyung/scanner/GroovyScriptScanner.java:25-40 | the defaults are base package `groovy`, class path `src/main/resources`, suffix `.groovy` and refresh delay 2000 |
| `Scanner.GroovyScriptScanner.GetBasePackge` | src/main/java/com/github/timoyung/scanner/GroovyScriptScanner.java:150-152 | returns the configured base package |
| `Scanner.GroovyScriptScanner.SetBasePackge` | src/main/java/com/github/timoyung/scanner/GroovyScriptScanner.java:154-156 | sets only the base package; the getter then returns the value set and the other three fields are unchanged |
| `Scanner.GroovyScriptScanner.GetProjectClassPath` | src/main/java/com/github/timoyung/scanner/GroovyScriptScanner.java:158-160 | returns the configured project class path |
| `Scanner.GroovyScriptScanner.SetProjectClassPath` | src/main/java/com/github/timoyung/scanner/GroovyScriptScanner.java:162-164 | sets only the project class path; the getter returns it, the other fields are unchanged |
| `Scanner.GroovyScriptScanner.GetSuffix` | src/main/java/com/github/timoyung/scanner/GroovyScriptScanner.java:166-168 | returns the configured suffix |
| `Scanner.GroovyScriptScanner.SetSuffix` | src/main/java/com/github/timoyung/scanner/GroovyScriptScanner.java:170-172 | sets only the suffix; the getter returns it, the other fields are unchanged |
| `Scanner.GroovyScriptScanner.GetRefreshCheckDelay` | src/main/java/com/github/timoyung/scanner/GroovyScriptScanner.java:174-176 | returns the configured refresh delay |
| `Scanner.GroovyScriptScanner.SetRefreshCheckDelay` | src/main/java/com/github/timoyung/scanner/GroovyScriptScanner.java:178-180 | sets only the refresh delay; the getter returns it, the other fields are unchanged |
| `Scanner.GroovyScriptScanner.GetFile` | src/main/java/com/github/timoyung/scanner/GroovyScriptScanner.java:97-132 | the list built by the two filtered listings and the loop over sub-directories equals `Discover`: the suffix-matching entries in listing order, then each sub-directory's result in listing order; a `null` listing contributes nothing |
| `Scanner.GroovyScriptScanner.GetScriptFiles` | src/main/java/com/github/timoyung/scanner/GroovyScriptScanner.java:79-90 | the files returned are those discovered under the node the scan root path denotes |
| `Scanner.GroovyScriptScanner.SetApplicationContext` | src/main/java/com/github/timoyung/scanner/GroovyScriptScanner.java:43-73 | performs exactly one registration per discovered file, in discovery order, each under the file's derived id with its script definition; the registry's new map is the old one with those writes applied left to right |
| `Files.Accept` | src/main/java/com/github/timoyung/scanner/GroovyScriptScanner.java:100-113 | the two anonymous `FileFilter.accept` bodies: the suffix filter accepts an entry whose name ends with the suffix (`endsWith`, at line 103), and the directory filter one that is a directory (line 111); `SelectMembers` and `ListFiles` state the filtered listings in terms of it |
| `Files.Select` | src/main/java/com/github/timoyung/scanner/GroovyScriptScanner.java:100-113 | a filtered listing never grows and holds only entries of the unfiltered listing |
| `Files.SelectMembers` | src/main/java/com/github/timoyung/scanner/GroovyScriptScanner.java:100-113 | an entry is in a filtered listing if and only if it is listed and the filter accepts it |
| `Files.ListFiles` | src/main/java/com/github/timoyung/scanner/GroovyScriptScanner.java:100-113 | `listFiles(filter)` is `null` exactly when the unfiltered listing is; otherwise an entry is in it if and only if the directory lists it and the filter accepts it, in listing order |
| `Files.Dirs` | src/main/java/com/github/timoyung/scanner/GroovyScriptScanner.java:108-113 | the sub-directory listing the loop walks holds only entries of the directory's own listing |
| `Files.InDiscoverDirs` | src/main/java/com/github/timoyung/scanner/GroovyScriptScanner.java:124-129 | after the loop has visited the first `k` sub-directories, an entry has been collected if and only if one of those directories' own results holds it |
| `Files.DiscoverFindsExactly` | src/main/java/com/github/timoyung/scanner/GroovyScriptScanner.java:97-132 | an entry is discovered if and only if a directory reachable through listed directories lists it with a name ending with the suffix, at any depth |
| `Files.DiscoverSound` | src/main/java/com/github/timoyung/scanner/GroovyScriptScanner.java:100-105 | each discovered entry was listed, with a matching name, by the root or a reachable directory |
| `Files.DiscoverComplete` | src/main/java/com/github/timoyung/scanner/GroovyScriptScanner.java:108-129 | each matching entry of a reachable directory is discovered, however deep |
| `Files.DiscoveredEndsWithSuffix` | src/main/java/com/github/timoyung/scanner/GroovyScriptScanner.java:100-105 | every discovered entry's name ends with the suffix |
| `Files.SuffixDirectoryIsReturnedAndSearched` | src/main/java/com/github/timoyung/scanner/GroovyScriptScanner.java:100-113 | a directory whose name ends with the suffix is itself in the result, and so is everything found inside it |
| `Scanner.ScriptsInTwoDirectories` | src/main/java/com/github/timoyung/scanner/GroovyScriptScanner.java:115-131 | with two sub-directories holding one script each, the result lists the first directory's script before the second's |
| `Scanner.MissingRootRegistersNothing` | src/main/java/com/github/timoyung/scanner/GroovyScriptScanner.java:99-121 | a scan root that does not exist or cannot be listed gives an empty list and leaves the registry unchanged, with no error |
| `Scanner.Open` | src/main/java/com/github/timoyung/scanner/GroovyScriptScanner.java:86 | a path that does not exist denotes a file that cannot be listed |
| `Scanner.ScanRoot` | src/main/java/com/github/timoyung/scanner/GroovyScriptScanner.java:81-84 | the scan root starts with the working directory, `/`, the class path and `/`, and is exactly as long as those parts plus the base package (`ScanRootLayout` gives every position) |
| `Scanner.ScriptDefinition` | src/main/java/com/github/timoyung/scanner/GroovyScriptScanner.java:55-62 | the definition holds two distinct attributes and one constructor argument (`RegisteredDefinitionShape` states their values for every registered id) |
| `Scanner.Registrations` | src/main/java/com/github/timoyung/scanner/GroovyScriptScanner.java:53-71 | one registration per file, in the files' order, keyed by that file's derived id (`RegistrationKeys`, `RegisteredKeys`, `RegisteredLastWriteWins` and `RegisteredUntouched` give its effect) |
| `Files.Discover` | src/main/java/com/github/timoyung/scanner/GroovyScriptScanner.java:97-132 | the discovery specification: the suffix-matching entries in listing order, then each sub-directory's result in order; `DiscoverFindsExactly` proves it finds exactly what `Found` describes |
| `Files.DiscoverDirs` | src/main/java/com/github/timoyung/scanner/GroovyScriptScanner.java:124-129 | the results of the first `k` sub-directories, concatenated in listing order; `InDiscoverDirs` gives its members |
| `Scanner.SingleScriptDirectory` | src/main/java/com/github/timoyung/scanner/GroovyScriptScanner.java:100-131 | a directory listing only one script, and no sub-directory, yields exactly that script |
| `Scanner.ScanRootWithoutDots` | src/main/java/com/github/timoyung/scanner/GroovyScriptScanner.java:81-84 | a base package without dots, like the default `groovy`, is the last path component unchanged (rests on `ReplaceAbsent`) |
| `Scanner.BeanIdWithEmptySuffix` | src/main/java/com/github/timoyung/scanner/GroovyScriptScanner.java:65-70 | with an empty suffix nothing is removed, and the id is the name with its first character lowered at every occurrence (rests on `RemoveEmptyIsIdentity`) |
| `Scanner.ScanRootLayout` | src/main/java/com/github/timoyung/scanner/GroovyScriptScanner.java:81-84 | the scan root is root, `/`, class path, `/`, then the base package with the same length where only each `.` has become `/` |
| `JavaStrings.ReplaceAllSingleChar` | src/main/java/com/github/timoyung/scanner/GroovyScriptScanner.java:81 | `replace(".", "/")` on strings agrees with replacing each `.` character by `/` |
| `JavaStrings.EndsWith` | src/main/java/com/github/timoyung/scanner/GroovyScriptScanner.java:103 | `String.endsWith`: the suffix is the tail of the name; as in Java, the empty suffix is accepted by every name |
| `JavaStrings.Text` | src/main/java/com/github/timoyung/scanner/GroovyScriptScanner.java:84 | a `null` root path becomes the text `"null"` under string concatenation, any other string is itself; `ScanRoot` uses it |
| `JavaStrings.ReplaceChar` | src/main/java/com/github/timoyung/scanner/GroovyScriptScanner.java:67 | `replace(char, char)` keeps the length and changes every occurrence of the old character, and nothing else; the old character survives nowhere unless it is also the new one |
| `JavaStrings.ReplaceAll` | src/main/java/com/github/timoyung/scanner/GroovyScriptScanner.java:81 | `replace(CharSequence, CharSequence)`, length facts only: with an empty replacement the result never grows; with an empty target its length is the input's length plus the replacement's length times one more than the input's length. What line 81 relies on, replacing the one-character target `.`, is `ReplaceAllSingleChar`; what line 70 relies on is `RemoveTrailingOnly` and `BeanIdRemovesInnerSuffix` |
| `JavaStrings.RemoveAll` | src/main/java/com/github/timoyung/scanner/GroovyScriptScanner.java:70 | `replace(target, "")` never lengthens the string and only keeps characters it already had |
| `JavaStrings.Lower` | src/main/java/com/github/timoyung/scanner/GroovyScriptScanner.java:67 | an ASCII capital becomes the matching small letter; every other character is unchanged |
| `JavaStrings.RemoveEmptyIsIdentity` | src/main/java/com/github/timoyung/scanner/GroovyScriptScanner.java:70 | with an empty suffix, removing it leaves the name unchanged |
| `JavaStrings.ReplaceAbsent` | src/main/java/com/github/timoyung/scanner/GroovyScriptScanner.java:81 | a non-empty target that occurs nowhere leaves the string unchanged |
| `JavaStrings.RemoveTrailingOnly` | src/main/java/com/github/timoyung/scanner/GroovyScriptScanner.java:70 | removing every occurrence equals stripping the trailing suffix when the suffix occurs only at the end |
| `JavaStrings.RemoveAllSkips` | src/main/java/com/github/timoyung/scanner/GroovyScriptScanner.java:70 | a prefix without the suffix's first character passes through the removal unchanged |
| `JavaStrings.RemoveAllDropsFront` | src/main/java/com/github/timoyung/scanner/GroovyScriptScanner.java:70 | an occurrence of the suffix at the front is dropped by the removal |
| `JavaStrings.ReplaceAllCharacters` | src/main/java/com/github/timoyung/scanner/GroovyScriptScanner.java:67-70 | replacing never adds characters other than those of the input and of the replacement |
| `Scanner.BeanId` | src/main/java/com/github/timoyung/scanner/GroovyScriptScanner.java:65-70 | the id is at most as long as the file name, and each of its characters is the lowered first character or a character of the name other than the first one; so an upper-case first letter appears nowhere in the id, because every occurrence of it is lowered |
| `Scanner.BeanIdAsIntended` | src/main/java/com/github/timoyung/scanner/GroovyScriptScanner.java:64-70 | when the first letter appears nowhere else and the suffix occurs in the lowered name only at its end, the id is the stem with only its first character lower-cased (this rests on `JavaStrings.RemoveTrailingOnly`) |
| `Scanner.BeanIdOfPrintService` | src/main/java/com/github/timoyung/scanner/GroovyScriptScanner.java:65-70 | `PrintService.groovy` gets the id `printService` |
| `Scanner.BeanIdOfSingleLetter` | src/main/java/com/github/timoyung/scanner/GroovyScriptScanner.java:65-70 | `A.groovy` gets the id `a` |
| `Scanner.BeanIdOfSuffixOnly` | src/main/java/com/github/timoyung/scanner/GroovyScriptScanner.java:65-70 | a file named just `.groovy` gets the empty id |
| `Scanner.BeanIdRepeatedFirstLetter` | src/main/java/com/github/timoyung/scanner/GroovyScriptScanner.java:66-67 | `SaSa.groovy` gets the id `sasa`: every `S` is lowered |
| `Scanner.BeanIdRemovesInnerSuffix` | src/main/java/com/github/timoyung/scanner/GroovyScriptScanner.java:70 | a suffix in the middle of the name is removed too, so `Foo.groovyBak.groovy` gets `fooBak` |
| `Scanner.RegistrationKeys` | src/main/java/com/github/timoyung/scanner/GroovyScriptScanner.java:53-71 | the keys written by the registrations are exactly the ids derived from the files |
| `Scanner.RegisteredKeys` | src/main/java/com/github/timoyung/scanner/GroovyScriptScanner.java:53-71 | after registration the key set is the old key set plus exactly the derived ids |
| `Scanner.RegisteredLastWriteWins` | src/main/java/com/github/timoyung/scanner/GroovyScriptScanner.java:53-71 | each id maps to the definition built from the last file in the list with that id |
| `Scanner.RegisteredUntouched` | src/main/java/com/github/timoyung/scanner/GroovyScriptScanner.java:53-71 | a key that is not the id of any file keeps its old presence and value |
| `Scanner.RegisteredDefinitionShape` | src/main/java/com/github/timoyung/scanner/GroovyScriptScanner.java:55-62 | every registered definition has class `GroovyScriptFactory`, exactly the refresh-delay and `groovy` language attributes, and as its only constructor argument, at index 0, `file:` plus the path of a file with that id |
| `Scanner.SameNameKeepsLast` | src/main/java/com/github/timoyung/scanner/GroovyScriptScanner.java:53-71 | two files with the same name add one key, which holds the definition of the second |
| `BeanDefinitions.Apply` | src/main/java/com/github/timoyung/scanner/GroovyScriptScanner.java:53-71 | registering a list keeps every old key, and the last registration's key holds its definition (`ApplyKeys`, `ApplyLastWriteWins` and `ApplyUntouched` give the rest) |
| `BeanDefinitions.ApplyKeys` | src/main/java/com/github/timoyung/scanner/GroovyScriptScanner.java:70 | writing a list of registrations adds exactly their keys to the map |
| `BeanDefinitions.ApplyLastWriteWins` | src/main/java/com/github/timoyung/scanner/GroovyScriptScanner.java:70 | a key holds the record of the last registration under it |
| `BeanDefinitions.ApplyUntouched` | src/main/java/com/github/timoyung/scanner/GroovyScriptScanner.java:70 | a key that no registration writes keeps its old presence and value |
| `BeanDefinitions.BeanRegistry.RegisterBeanDefinition` | src/main/java/com/github/timoyung/scanner/GroovyScriptScanner.java:70 | one registration overwrites the key with the new definition and is appended to the log |

## Left out

- Spring itself is not modelled. That covers `ApplicationContext`, `DefaultListableBeanFactory`, `GenericBeanDefinition`'s internals, and the cast at line 45. The registry is a plain map that overwrites. Spring's override-allowed flag and its validation of definitions cannot be seen from this code. One case matters here: a file named just `.groovy` gets the id `""` (`BeanIdOfSuffixOnly`). The model registers that id, but Spring's `registerBeanDefinition` rejects an empty bean name.
- Real file system access is not modelled: `listFiles`, `isDirectory`, `getAbsoluteFile`. The tree and the map from paths to nodes are inputs. The platform decides listing order, so order is part of the input.
- A node's absolute path is a field taken as given. The model does not tie it to its parent's path.
- The source lists each directory twice, once per filter. The model assumes both calls see the same listing. A directory that changes between the two calls is not modelled.
- `getCanonicalPath` is a parameter (`NullableString`). Its failure leaves `Null`. The printed stack trace is not modelled.
- Symbolic links and cycles cannot occur, because the tree is finite. The source has no guard against them.
- `JavaStrings.Lower`: maps only ASCII `A`-`Z` to `a`-`z`, because full Unicode `toLowerCase` is not available here. Java's `toLowerCase()` at line 67 also uses the default locale. So `BeanId` can differ from Java for any first character outside `A`-`Z`, and also for `I` in a Turkish or Azeri locale, where Java gives dotless `ı` (U+0131) and `Lower` gives `i`.
- `Scanner.GroovyScriptScanner.SetApplicationContext`: requires every discovered name to be non-empty. `charAt(0)` would throw on an empty name, and file names are never empty.
- `null` values for the configuration fields are not modelled, though the setters accept them. What the source then does differs by field:
  - a `null` `basePackge` throws a `NullPointerException` at line 81;
  - a `null` `projectClassPath` is concatenated as the text `"null"` at line 84, and the scan goes on;
  - a `null` `suffix` throws at line 103, but only once some directory lists an entry;
  - a `null` `refreshCheckDelay` is passed to `setAttribute` at line 58, and the scanner never unboxes it.
- The input tree is taken to be what a file system can produce: a node that is not a directory has `NoListing`, as Java's `listFiles()` returns `null` for it. Nothing in `Node` enforces this. A non-directory given a `Listed` value, including a scan root from `Open`, would be walked like a directory.
- `runner/java/com/github/timoyung/test/startup/Main.java` is not part of this model. It is a demo that boots an XML context and runs a console loop.
