/**
 * The Groovy script scanner: it finds every script file under
 * `<working directory>/<projectClassPath>/<basePackge as a path>` and
 * registers one script-factory bean definition per file, under an id
 * derived from the file name.
 *
 * The working directory (the outcome of `getCanonicalPath`, which is
 * `Null` when that call failed and its exception was swallowed) and the
 * file system are parameters.
 */
module Scanner {
  import opened JavaStrings
  import opened Files
  import opened BeanDefinitions

  /** The class every registered definition instantiates. */
  const GroovyScriptFactory := "org.springframework.scripting.groovy.GroovyScriptFactory"
  /** The attribute holding the refresh interval in milliseconds. */
  const RefreshCheckDelayAttribute := "org.springframework.scripting.support.ScriptFactoryPostProcessor.refreshCheckDelay"
  /** The attribute holding the script language. */
  const LanguageAttribute := "org.springframework.scripting.support.ScriptFactoryPostProcessor.language"

  /** The file system: the node each existing path denotes. */
  type FileSystem = map<string, Node>

  /** `new File(path)`: a path that does not exist cannot be listed. */
  function Open(fs: FileSystem, path: string): (n: Node)
    ensures path !in fs ==> n.listing.NoListing?
  {
    if path in fs then fs[path] else Node(path, path, false, NoListing)
  }

  /**
   * The scan root: the working directory, the project class path and the
   * base package with each `.` turned into `/`, joined by `/`.
   */
  function ScanRoot(projectPath: NullableString, projectClassPath: string, basePackge: string): (root: string)
    ensures StartsWith(root, Text(projectPath) + "/" + projectClassPath + "/")
    ensures |root| == |Text(projectPath)| + |projectClassPath| + |basePackge| + 2
  {
    ReplaceAllSingleChar(basePackge, '.', '/');
    assert "." == ['.'] && "/" == ['/'];
    Text(projectPath) + "/" + projectClassPath + "/" + ReplaceAll(basePackge, ".", "/")
  }

  /**
   * The bean id for a file name as the scanner computes it: every
   * occurrence of the name's first character is lower-cased, then every
   * occurrence of the suffix is removed.
   */
  function BeanId(fileName: string, suffix: string): (id: string)
    requires fileName != []
    ensures |id| <= |fileName|
    ensures forall c :: c in id ==> c == Lower(fileName[0]) || (c in fileName && c != fileName[0])
  {
    var s := fileName[0];
    RemoveAll(ReplaceChar(fileName, s, Lower(s)), suffix)
  }

  /** The definition registered for the script at `absolutePath`. */
  function ScriptDefinition(absolutePath: string, refreshCheckDelay: int64): (d: Definition)
    ensures |d.attributes| == 2 && |d.constructorArgs| == 1
  {
    Definition(
      GroovyScriptFactory,
      map[RefreshCheckDelayAttribute := LongValue(refreshCheckDelay), LanguageAttribute := StringValue("groovy")],
      map[0 := "file:" + absolutePath])
  }

  /** Every file name is non-empty, so that its first character exists. */
  predicate NamesNonEmpty(files: seq<Node>)
  {
    forall f | f in files :: f.name != []
  }

  /** The registrations the scanner performs for `files`, one per file, in order. */
  function Registrations(files: seq<Node>, suffix: string, refreshCheckDelay: int64): (puts: seq<Registration>)
    requires NamesNonEmpty(files)
    ensures |puts| == |files|
    ensures forall i :: 0 <= i < |files| ==> puts[i].0 == BeanId(files[i].name, suffix)
  {
    seq(|files|, i requires 0 <= i < |files| =>
      (BeanId(files[i].name, suffix), ScriptDefinition(files[i].absolutePath, refreshCheckDelay)))
  }

  /** The ids derived from `files`. */
  ghost function DerivedIds(files: seq<Node>, suffix: string): set<string>
    requires NamesNonEmpty(files)
  {
    set f | f in files :: BeanId(f.name, suffix)
  }

  /**
   * The scan root is the three components joined by `/`, where the base
   * package keeps its length and only its dots change, each into `/`.
   */
  lemma ScanRootLayout(projectPath: NullableString, projectClassPath: string, basePackge: string)
    ensures var prefix := Text(projectPath) + "/" + projectClassPath + "/";
      var r := ScanRoot(projectPath, projectClassPath, basePackge);
      && |r| == |prefix| + |basePackge|
      && r[..|prefix|] == prefix
      && forall i :: 0 <= i < |basePackge| ==>
           r[|prefix| + i] == (if basePackge[i] == '.' then '/' else basePackge[i])
  {
    ReplaceAllSingleChar(basePackge, '.', '/');
    assert "." == ['.'] && "/" == ['/'];
  }

  /**
   * A base package without dots, such as the default `groovy`, is used as
   * the last path component unchanged.
   */
  lemma ScanRootWithoutDots(projectPath: NullableString, projectClassPath: string, basePackge: string)
    requires '.' !in basePackge
    ensures ScanRoot(projectPath, projectClassPath, basePackge) == Text(projectPath) + "/" + projectClassPath + "/" + basePackge
  {
    NoOccurrenceWithin(basePackge, [], ".");
    assert basePackge + [] == basePackge;
    ReplaceAbsent(basePackge, ".", "/");
  }

  /**
   * With an empty suffix nothing is removed: the id is the name with every
   * occurrence of its first character lower-cased.
   */
  lemma BeanIdWithEmptySuffix(fileName: string)
    requires fileName != []
    ensures BeanId(fileName, "") == ReplaceChar(fileName, fileName[0], Lower(fileName[0]))
  {
    RemoveEmptyIsIdentity(ReplaceChar(fileName, fileName[0], Lower(fileName[0])));
  }

  /**
   * Where the first character appears nowhere else in the name and the
   * suffix occurs in the lower-cased name only at its end, the id is the
   * name without its suffix, with just its first character lower-cased:
   * the rule the naming convention intends.
   */
  lemma BeanIdAsIntended(stem: string, suffix: string)
    requires stem != [] && suffix != []
    requires stem[0] !in stem[1..] + suffix
    requires forall i: nat :: i < |stem| ==> !OccursAt([Lower(stem[0])] + stem[1..] + suffix, suffix, i)
    ensures BeanId(stem + suffix, suffix) == [Lower(stem[0])] + stem[1..]
  {
    var name := stem + suffix;
    var low := [Lower(stem[0])] + stem[1..];
    assert name[0] == stem[0];
    forall i | 0 <= i < |name| ensures ReplaceChar(name, name[0], Lower(name[0]))[i] == (low + suffix)[i] {
      if i > 0 {
        assert name[i] == (stem[1..] + suffix)[i - 1];
      }
    }
    assert ReplaceChar(name, name[0], Lower(name[0])) == low + suffix;
    RemoveTrailingOnly(low, suffix);
  }

  /** `PrintService.groovy` gets the id `printService`. */
  lemma BeanIdOfPrintService()
    ensures BeanId("PrintService.groovy", ".groovy") == "printService"
  {
    NoOccurrenceWithin("printService", ".groovy", ".groovy");
    assert [Lower('P')] + "PrintService"[1..] == "printService";
    BeanIdAsIntended("PrintService", ".groovy");
    assert "PrintService" + ".groovy" == "PrintService.groovy";
    assert [Lower('P')] + "PrintService"[1..] == "printService";
  }

  /** A one-letter name: `A.groovy` gets the id `a`. */
  lemma BeanIdOfSingleLetter()
    ensures BeanId("A.groovy", ".groovy") == "a"
  {
    NoOccurrenceWithin("a", ".groovy", ".groovy");
    assert [Lower('A')] + "A"[1..] == "a";
    BeanIdAsIntended("A", ".groovy");
    assert "A" + ".groovy" == "A.groovy";
  }

  /** A file named just `.groovy` gets the empty id. */
  lemma BeanIdOfSuffixOnly()
    ensures BeanId(".groovy", ".groovy") == ""
  {
    var t := ".groovy";
    assert ReplaceChar(t, '.', Lower('.')) == t;
    RemoveAllDropsFront([], t);
    assert t + [] == t;
  }

  /** A repeated first letter is lower-cased at every occurrence, not only at index 0. */
  lemma BeanIdRepeatedFirstLetter()
    ensures BeanId("SaSa.groovy", ".groovy") == "sasa"
  {
    var t := ".groovy";
    var name := "SaSa" + t;
    assert name == "SaSa.groovy";
    var lowered := ReplaceChar(name, 'S', 's');
    assert lowered[0] == 's' && lowered[2] == 's';
    assert lowered == "sasa" + t;
    RemoveAllSkips("sasa", t, t);
    RemoveAllDropsFront([], t);
    assert t + [] == t;
  }

  /**
   * A suffix in the middle of the name is removed as well as the trailing
   * one: `Foo.groovyBak.groovy` gets the id `fooBak`.
   */
  lemma BeanIdRemovesInnerSuffix(stem: string, mid: string, suffix: string)
    requires stem != [] && suffix != []
    requires stem[0] !in stem[1..] + suffix + mid + suffix
    requires suffix[0] !in [Lower(stem[0])] + stem[1..] && suffix[0] !in mid
    ensures BeanId(stem + suffix + mid + suffix, suffix) == [Lower(stem[0])] + stem[1..] + mid
  {
    var name := stem + suffix + mid + suffix;
    var rest := suffix + mid + suffix;
    var low := [Lower(stem[0])] + stem[1..];
    assert name == stem + rest;
    assert name[0] == stem[0];
    forall i | 0 <= i < |name| ensures ReplaceChar(name, name[0], Lower(name[0]))[i] == (low + rest)[i] {
      if i > 0 {
        assert name[i] == (stem[1..] + rest)[i - 1];
      }
    }
    assert ReplaceChar(name, name[0], Lower(name[0])) == low + rest;
    RemoveAllSkips(low, rest, suffix);
    assert rest == suffix + (mid + suffix);
    RemoveAllDropsFront(mid + suffix, suffix);
    RemoveAllSkips(mid, suffix, suffix);
    RemoveAllDropsFront([], suffix);
    assert suffix + [] == suffix;
  }

  /** One registration per file, each under that file's id. */
  lemma RegistrationKeys(files: seq<Node>, suffix: string, refreshCheckDelay: int64)
    requires NamesNonEmpty(files)
    ensures Keys(Registrations(files, suffix, refreshCheckDelay)) == DerivedIds(files, suffix)
  {
    var puts := Registrations(files, suffix, refreshCheckDelay);
    forall k ensures k in Keys(puts) <==> k in DerivedIds(files, suffix) {
      if k in DerivedIds(files, suffix) {
        var f :| f in files && BeanId(f.name, suffix) == k;
        var j :| 0 <= j < |files| && files[j] == f;
        assert puts[j].0 == k;
      }
    }
  }

  /** After registering `files`, the registry holds its old keys and exactly the derived ids. */
  lemma RegisteredKeys(m: map<string, Definition>, files: seq<Node>, suffix: string, refreshCheckDelay: int64)
    requires NamesNonEmpty(files)
    ensures Apply(m, Registrations(files, suffix, refreshCheckDelay)).Keys == m.Keys + DerivedIds(files, suffix)
  {
    ApplyKeys(m, Registrations(files, suffix, refreshCheckDelay));
    RegistrationKeys(files, suffix, refreshCheckDelay);
  }

  /** An id holds the definition built from the last file in the list with that id. */
  lemma RegisteredLastWriteWins(m: map<string, Definition>, files: seq<Node>, suffix: string, refreshCheckDelay: int64, j: int)
    requires NamesNonEmpty(files) && 0 <= j < |files|
    requires forall j' :: j < j' < |files| ==> BeanId(files[j'].name, suffix) != BeanId(files[j].name, suffix)
    ensures var r := Apply(m, Registrations(files, suffix, refreshCheckDelay));
      var k := BeanId(files[j].name, suffix);
      k in r && r[k] == ScriptDefinition(files[j].absolutePath, refreshCheckDelay)
  {
    var puts := Registrations(files, suffix, refreshCheckDelay);
    ApplyLastWriteWins(m, puts, BeanId(files[j].name, suffix), j);
  }

  /** A key that no file's id equals is left as it was. */
  lemma RegisteredUntouched(m: map<string, Definition>, files: seq<Node>, suffix: string, refreshCheckDelay: int64, k: string)
    requires NamesNonEmpty(files) && k !in DerivedIds(files, suffix)
    ensures var r := Apply(m, Registrations(files, suffix, refreshCheckDelay));
      (k in r <==> k in m) && (k in m ==> r[k] == m[k])
  {
    RegistrationKeys(files, suffix, refreshCheckDelay);
    ApplyUntouched(m, Registrations(files, suffix, refreshCheckDelay), k);
  }

  /**
   * Every definition registered under a derived id is a Groovy script
   * factory with the configured refresh delay, the language "groovy" and,
   * as constructor argument 0, the `file:` location of a file with that id.
   */
  lemma RegisteredDefinitionShape(m: map<string, Definition>, files: seq<Node>, suffix: string, refreshCheckDelay: int64, k: string)
    requires NamesNonEmpty(files) && k in DerivedIds(files, suffix)
    ensures var r := Apply(m, Registrations(files, suffix, refreshCheckDelay));
      && k in r
      && r[k].beanClassName == GroovyScriptFactory
      && r[k].attributes == map[RefreshCheckDelayAttribute := LongValue(refreshCheckDelay), LanguageAttribute := StringValue("groovy")]
      && r[k].constructorArgs.Keys == {0}
      && exists f :: f in files && BeanId(f.name, suffix) == k && r[k].constructorArgs[0] == "file:" + f.absolutePath
  {
    var puts := Registrations(files, suffix, refreshCheckDelay);
    RegistrationKeys(files, suffix, refreshCheckDelay);
    var j := LastForExists(puts, k);
    ApplyLastWriteWins(m, puts, k, j);
    assert files[j] in files;
  }

  /**
   * A scan root that is missing or cannot be listed yields no files and
   * leaves the registry exactly as it was; no error is raised.
   */
  lemma MissingRootRegistersNothing(
    projectPath: NullableString, projectClassPath: string, basePackge: string, suffix: string,
    fs: FileSystem, m: map<string, Definition>, refreshCheckDelay: int64)
    requires var root := ScanRoot(projectPath, projectClassPath, basePackge);
      root !in fs || fs[root].listing.NoListing?
    ensures var files := Discover(Open(fs, ScanRoot(projectPath, projectClassPath, basePackge)), suffix);
      files == [] && Apply(m, Registrations(files, suffix, refreshCheckDelay)) == m
  {
  }

  /** A directory listing just one script finds just that script. */
  lemma SingleScriptDirectory(d: Node, x: Node, suffix: string)
    requires d.listing == Listed([x]) && !x.isDirectory && EndsWith(x.name, suffix)
    ensures Discover(d, suffix) == [x]
  {
    assert Select([x], SuffixFilter(suffix)) == [x];
    assert Dirs(d) == [];
  }

  /**
   * A scan root with two sub-directories, each holding one script: both
   * scripts are found, the one in the first-listed directory first.
   */
  lemma ScriptsInTwoDirectories(root: Node, a: Node, b: Node, first: Node, second: Node, suffix: string)
    requires root.listing == Listed([a, b])
    requires a.isDirectory && b.isDirectory && !EndsWith(a.name, suffix) && !EndsWith(b.name, suffix)
    requires a.listing == Listed([first]) && b.listing == Listed([second])
    requires !first.isDirectory && !second.isDirectory
    requires EndsWith(first.name, suffix) && EndsWith(second.name, suffix)
    ensures Discover(root, suffix) == [first, second]
  {
    SingleScriptDirectory(a, first, suffix);
    SingleScriptDirectory(b, second, suffix);
    assert Select([a, b], SuffixFilter(suffix)) == [];
    assert Select([a, b], DirectoryFilter) == [a, b];
    assert Dirs(root) == [a, b];
    assert DiscoverDirs(root, suffix, 1) == [first];
  }

  /**
   * Two files with the same name (say `Foo.groovy` in two directories)
   * share one id; registering both adds that single key, holding the
   * definition of the file registered last.
   */
  lemma SameNameKeepsLast(m: map<string, Definition>, first: Node, second: Node, suffix: string, refreshCheckDelay: int64)
    requires first.name != [] && first.name == second.name
    ensures Apply(m, Registrations([first, second], suffix, refreshCheckDelay))
      == m[BeanId(first.name, suffix) := ScriptDefinition(second.absolutePath, refreshCheckDelay)]
  {
    var puts := Registrations([first, second], suffix, refreshCheckDelay);
    var k := BeanId(first.name, suffix);
    assert puts[0] == (k, ScriptDefinition(first.absolutePath, refreshCheckDelay));
    assert puts[1] == (k, ScriptDefinition(second.absolutePath, refreshCheckDelay));
    assert puts[..1][..0] == [] && puts[..|puts| - 1] == puts[..1];
    assert Apply(m, puts[..1]) == m[k := ScriptDefinition(first.absolutePath, refreshCheckDelay)];
  }

  class GroovyScriptScanner {
    var basePackge: string
    var projectClassPath: string
    var suffix: string
    var refreshCheckDelay: int64

    constructor ()
      ensures basePackge == "groovy" && projectClassPath == "src/main/resources"
      ensures suffix == ".groovy" && refreshCheckDelay == 2000
    {
      basePackge := "groovy";
      projectClassPath := "src/main/resources";
      suffix := ".groovy";
      refreshCheckDelay := 2000;
    }

    function GetBasePackge(): (r: string)
      reads this
      ensures r == basePackge
    {
      basePackge
    }

    method SetBasePackge(basePackge: string)
      modifies this`basePackge
      ensures this.basePackge == basePackge && GetBasePackge() == basePackge
      ensures projectClassPath == old(projectClassPath) && suffix == old(suffix)
      ensures refreshCheckDelay == old(refreshCheckDelay)
    {
      this.basePackge := basePackge;
    }

    function GetProjectClassPath(): (r: string)
      reads this
      ensures r == projectClassPath
    {
      projectClassPath
    }

    method SetProjectClassPath(projectClassPath: string)
      modifies this`projectClassPath
      ensures this.projectClassPath == projectClassPath && GetProjectClassPath() == projectClassPath
      ensures basePackge == old(basePackge) && suffix == old(suffix)
      ensures refreshCheckDelay == old(refreshCheckDelay)
    {
      this.projectClassPath := projectClassPath;
    }

    function GetSuffix(): (r: string)
      reads this
      ensures r == suffix
    {
      suffix
    }

    method SetSuffix(suffix: string)
      modifies this`suffix
      ensures this.suffix == suffix && GetSuffix() == suffix
      ensures basePackge == old(basePackge) && projectClassPath == old(projectClassPath)
      ensures refreshCheckDelay == old(refreshCheckDelay)
    {
      this.suffix := suffix;
    }

    function GetRefreshCheckDelay(): (r: int64)
      reads this
      ensures r == refreshCheckDelay
    {
      refreshCheckDelay
    }

    method SetRefreshCheckDelay(refreshCheckDelay: int64)
      modifies this`refreshCheckDelay
      ensures this.refreshCheckDelay == refreshCheckDelay && GetRefreshCheckDelay() == refreshCheckDelay
      ensures basePackge == old(basePackge) && projectClassPath == old(projectClassPath)
      ensures suffix == old(suffix)
    {
      this.refreshCheckDelay := refreshCheckDelay;
    }

    /**
     * The files under `path` whose name ends with the suffix: those listed
     * by `path` itself, then those found in each listed sub-directory.
     */
    method GetFile(path: Node) returns (fileList: seq<Node>)
      ensures fileList == Discover(path, suffix)
      decreases path
    {
      var files := ListFiles(path, SuffixFilter(suffix));
      var paths := ListFiles(path, DirectoryFilter);
      if files.Listed? {
        fileList := files.entries;
      } else {
        fileList := [];
      }
      if paths.Listed? {
        var childPaths := paths.entries;
        assert childPaths == Dirs(path);
        for i := 0 to |childPaths|
          invariant fileList == files.entries + DiscoverDirs(path, suffix, i)
        {
          assert childPaths[i] in path.listing.entries;
          var childPathFiles := GetFile(childPaths[i]);
          fileList := fileList + childPathFiles;
        }
      }
    }

    /** The script files under the scan root built from the configuration. */
    method GetScriptFiles(projectPath: NullableString, fs: FileSystem) returns (files: seq<Node>)
      ensures files == Discover(Open(fs, ScanRoot(projectPath, projectClassPath, basePackge)), suffix)
    {
      var basePath := ReplaceAll(basePackge, ".", "/");
      var scriptBasePath := Text(projectPath) + "/" + projectClassPath + "/" + basePath;
      var path := Open(fs, scriptBasePath);
      files := GetFile(path);
    }

    /** What the scan finds for this configuration. */
    ghost function ScriptFiles(projectPath: NullableString, fs: FileSystem): seq<Node>
      reads this
    {
      Discover(Open(fs, ScanRoot(projectPath, projectClassPath, basePackge)), suffix)
    }

    /**
     * Scans and registers: one `RegisterBeanDefinition` per discovered file,
     * in discovery order, each under the id derived from the file name.
     */
    method SetApplicationContext(context: BeanRegistry, projectPath: NullableString, fs: FileSystem)
      requires NamesNonEmpty(ScriptFiles(projectPath, fs))
      modifies context
      ensures context.history
        == old(context.history) + Registrations(ScriptFiles(projectPath, fs), suffix, refreshCheckDelay)
      ensures context.definitions
        == Apply(old(context.definitions), Registrations(ScriptFiles(projectPath, fs), suffix, refreshCheckDelay))
    {
      var fileList := GetScriptFiles(projectPath, fs);
      ghost var puts := Registrations(fileList, suffix, refreshCheckDelay);
      for i := 0 to |fileList|
        invariant context.history == old(context.history) + puts[..i]
        invariant context.definitions == Apply(old(context.definitions), puts[..i])
      {
        var item := fileList[i];
        var bd := ScriptDefinition(item.absolutePath, refreshCheckDelay);
        var fileName := item.name;
        assert item in fileList;
        var s := fileName[0];
        fileName := ReplaceChar(fileName, s, Lower(s));
        assert puts[i] == (RemoveAll(fileName, suffix), bd);
        ApplySnoc(old(context.definitions), puts, i);
        context.RegisterBeanDefinition(RemoveAll(fileName, suffix), bd);
      }
      assert puts[..|fileList|] == puts;
    }
  }
}
