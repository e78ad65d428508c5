/**
 * The part of `java.io.File` the scanner uses, as a finite tree, and the
 * specification of the recursive script discovery.
 *
 * A `Node` is one `File`: its name, its absolute path, whether it is a
 * directory, and what `listFiles()` gives for it, in listing order.
 * `listFiles()` yields `null` for a path that does not exist, is not a
 * directory or cannot be read; that is `NoListing`.
 */
module Files {
  import opened JavaStrings

  datatype Node = Node(name: string, absolutePath: string, isDirectory: bool, listing: Listing)

  datatype Listing = NoListing | Listed(entries: seq<Node>)

  /** The two `FileFilter`s of the scanner: by name suffix, and by being a directory. */
  datatype FileFilter = SuffixFilter(suffix: string) | DirectoryFilter

  predicate Accept(f: FileFilter, x: Node)
  {
    match f
    case SuffixFilter(suffix) => EndsWith(x.name, suffix)
    case DirectoryFilter => x.isDirectory
  }

  /** The entries of `es` that `f` accepts, in the order of `es`. */
  function Select(es: seq<Node>, f: FileFilter): (r: seq<Node>)
    ensures |r| <= |es|
    ensures forall x :: x in r ==> x in es
  {
    if es == [] then []
    else (if Accept(f, es[0]) then [es[0]] else []) + Select(es[1..], f)
  }

  /** The selection holds exactly the entries that the filter accepts. */
  lemma {:induction false} SelectMembers(es: seq<Node>, f: FileFilter)
    ensures forall x :: x in Select(es, f) <==> x in es && Accept(f, x)
    decreases |es|
  {
    if es != [] {
      SelectMembers(es[1..], f);
      assert es == [es[0]] + es[1..];
    }
  }

  /**
   * `n.listFiles(f)`: `null` exactly when the unfiltered listing is `null`,
   * otherwise the entries `f` accepts, in listing order.
   */
  function ListFiles(n: Node, f: FileFilter): (r: Listing)
    ensures r.NoListing? <==> n.listing.NoListing?
    ensures r.Listed? ==> forall x :: x in r.entries <==> x in n.listing.entries && Accept(f, x)
    ensures r.Listed? ==> r.entries == Select(n.listing.entries, f)
  {
    match n.listing
    case NoListing => NoListing
    case Listed(es) =>
      SelectMembers(es, f);
      Listed(Select(es, f))
  }

  /** The sub-directories `n` lists, in listing order. */
  function Dirs(n: Node): (ds: seq<Node>)
    requires n.listing.Listed?
    ensures forall d :: d in ds ==> d in n.listing.entries
  {
    Select(n.listing.entries, DirectoryFilter)
  }

  /**
   * What the recursive discovery returns for `n`: the entries of `n` whose
   * name ends with `suffix`, in listing order, followed by the results for
   * each sub-directory of `n`, in listing order. The suffix test does not
   * ask whether an entry is a file.
   */
  function Discover(n: Node, suffix: string): seq<Node>
    decreases n, 1
  {
    match n.listing
    case NoListing => []
    case Listed(es) =>
      Select(es, SuffixFilter(suffix)) + DiscoverDirs(n, suffix, |Dirs(n)|)
  }

  /**
   * The results of discovery in the first `k` sub-directories of `n`,
   * concatenated in order.
   */
  function DiscoverDirs(n: Node, suffix: string, k: nat): seq<Node>
    requires n.listing.Listed? && k <= |Dirs(n)|
    decreases n, 0, k
  {
    if k == 0 then []
    else
      assert Dirs(n)[k - 1] in Dirs(n);
      DiscoverDirs(n, suffix, k - 1) + Discover(Dirs(n)[k - 1], suffix)
  }

  /**
   * An independent description of what should be found: `x` is an entry
   * whose name ends with `suffix`, listed by `n` itself or by a directory
   * that is reachable from `n` through listed directories.
   */
  ghost predicate Found(n: Node, x: Node, suffix: string)
    decreases n
  {
    match n.listing
    case NoListing => false
    case Listed(es) =>
      (x in es && EndsWith(x.name, suffix))
      || exists d :: d in es && d.isDirectory && Found(d, x, suffix)
  }

  /** Something is found in the first `k` sub-directories iff one of them yields it. */
  lemma {:induction false} InDiscoverDirs(n: Node, suffix: string, k: nat, x: Node)
    requires n.listing.Listed? && k <= |Dirs(n)|
    ensures x in DiscoverDirs(n, suffix, k) <==> exists i :: 0 <= i < k && x in Discover(Dirs(n)[i], suffix)
    decreases k
  {
    if k != 0 {
      InDiscoverDirs(n, suffix, k - 1, x);
    }
  }

  /** Discovery finds exactly the entries that `Found` describes, at any depth. */
  lemma DiscoverFindsExactly(n: Node, x: Node, suffix: string)
    ensures x in Discover(n, suffix) <==> Found(n, x, suffix)
  {
    if x in Discover(n, suffix) {
      DiscoverSound(n, x, suffix);
    }
    if Found(n, x, suffix) {
      DiscoverComplete(n, x, suffix);
    }
  }

  lemma {:induction false} DiscoverSound(n: Node, x: Node, suffix: string)
    requires x in Discover(n, suffix)
    ensures Found(n, x, suffix)
    decreases n
  {
    var es := n.listing.entries;
    var ds := Dirs(n);
    SelectMembers(es, SuffixFilter(suffix));
    SelectMembers(es, DirectoryFilter);
    if x !in Select(es, SuffixFilter(suffix)) {
      InDiscoverDirs(n, suffix, |ds|, x);
      var i :| 0 <= i < |ds| && x in Discover(ds[i], suffix);
      assert ds[i] in ds;
      DiscoverSound(ds[i], x, suffix);
    }
  }

  lemma {:induction false} DiscoverComplete(n: Node, x: Node, suffix: string)
    requires Found(n, x, suffix)
    ensures x in Discover(n, suffix)
    decreases n
  {
    var es := n.listing.entries;
    var ds := Dirs(n);
    SelectMembers(es, SuffixFilter(suffix));
    SelectMembers(es, DirectoryFilter);
    if !(x in es && EndsWith(x.name, suffix)) {
      var d :| d in es && d.isDirectory && Found(d, x, suffix);
      assert d in ds;
      var i :| 0 <= i < |ds| && ds[i] == d;
      DiscoverComplete(d, x, suffix);
      InDiscoverDirs(n, suffix, |ds|, x);
    }
  }

  /** Every entry discovery returns has a name that ends with the suffix. */
  lemma {:induction false} DiscoveredEndsWithSuffix(n: Node, x: Node, suffix: string)
    requires x in Discover(n, suffix)
    ensures EndsWith(x.name, suffix)
    decreases n
  {
    DiscoverFindsExactly(n, x, suffix);
    FoundEndsWithSuffix(n, x, suffix);
  }

  lemma {:induction false} FoundEndsWithSuffix(n: Node, x: Node, suffix: string)
    requires Found(n, x, suffix)
    ensures EndsWith(x.name, suffix)
    decreases n
  {
    var es := n.listing.entries;
    if !(x in es && EndsWith(x.name, suffix)) {
      var d :| d in es && d.isDirectory && Found(d, x, suffix);
      FoundEndsWithSuffix(d, x, suffix);
    }
  }

  /**
   * A directory whose own name ends with the suffix is returned itself and
   * is also searched: whatever discovery finds inside it is part of the
   * result as well.
   */
  lemma SuffixDirectoryIsReturnedAndSearched(n: Node, d: Node, suffix: string)
    requires n.listing.Listed? && d in n.listing.entries
    requires d.isDirectory && EndsWith(d.name, suffix)
    ensures d in Discover(n, suffix)
    ensures forall x :: x in Discover(d, suffix) ==> x in Discover(n, suffix)
  {
    DiscoverFindsExactly(n, d, suffix);
    forall x | x in Discover(d, suffix)
      ensures x in Discover(n, suffix)
    {
      DiscoverFindsExactly(d, x, suffix);
      DiscoverFindsExactly(n, x, suffix);
    }
  }
}
