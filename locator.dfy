/**
 * The image locator: listImages (src/index.ts:101-115). The directory tree is
 * a snapshot of what readdir would report: every directory is either listed
 * (its entries in listing order) or unreadable, which makes readdir throw.
 */
module Locator {
  import opened Wrappers
  import opened Formats
  import opened Paths

  datatype Listing = Unreadable | Entries(entries: seq<Entry>)

  /** A directory entry: a regular file, a subdirectory, or anything else (skipped). */
  datatype Entry = FileEntry(name: string) | DirEntry(name: string, contents: Listing) | OtherEntry(name: string)

  datatype ScanError = ReadFailed(dir: DirPath)

  /** What listImages returns for the directory `dir` holding `l`, or the error it throws. */
  function Images(dir: DirPath, l: Listing, recursive: bool, excludeExt: string): (r: Result<seq<FilePath>, ScanError>)
    ensures r.Ok? ==> forall p :: p in r.value ==> Selected(p.name, excludeExt)
    decreases l, 1
  {
    match l
    case Unreadable => Err(ReadFailed(dir))
    case Entries(es) => ScanEntries(dir, l, |es|, recursive, excludeExt)
  }

  /** The files collected from the first k entries of the listing `l`, in order. */
  function ScanEntries(dir: DirPath, l: Listing, k: nat, recursive: bool, excludeExt: string): (r: Result<seq<FilePath>, ScanError>)
    requires l.Entries? && k <= |l.entries|
    ensures r.Ok? ==> forall p :: p in r.value ==> Selected(p.name, excludeExt)
    decreases l, 0, k
  {
    if k == 0 then Ok([])
    else
      match ScanEntries(dir, l, k - 1, recursive, excludeExt)
      case Err(e) => Err(e)
      case Ok(prev) =>
        match l.entries[k - 1]
        case FileEntry(n) => Ok(if Selected(n, excludeExt) then prev + [FilePath(dir, n)] else prev)
        case DirEntry(n, c) =>
          if recursive then
            match Images(dir + [n], c, recursive, excludeExt)
            case Err(e) => Err(e)
            case Ok(sub) => Ok(prev + sub)
          else Ok(prev)
        case OtherEntry(_) => Ok(prev)
  }

  /** listImages: a loop over the entries, recursing into subdirectories when recursive. */
  method ListImages(dir: DirPath, l: Listing, recursive: bool, excludeExt: string) returns (r: Result<seq<FilePath>, ScanError>)
    ensures r == Images(dir, l, recursive, excludeExt)
    decreases l
  {
    if l.Unreadable? {
      return Err(ReadFailed(dir));
    }
    var entries := l.entries;
    var files: seq<FilePath> := [];
    for i := 0 to |entries|
      invariant ScanEntries(dir, l, i, recursive, excludeExt) == Ok(files)
    {
      match entries[i]
      case DirEntry(n, c) =>
        if recursive {
          var sub := ListImages(dir + [n], c, true, excludeExt);
          if sub.Err? {
            ErrorPersists(dir, l, i + 1, |entries|, recursive, excludeExt);
            return sub;
          }
          files := files + sub.value;
        }
      case FileEntry(n) =>
        var ext := ExtOf(n);
        if ext in SupportedInputs && ext != excludeExt {
          files := files + [FilePath(dir, n)];
        }
      case OtherEntry(_) =>
    }
    return Ok(files);
  }

  /** Once an entry's subdirectory fails to list, the whole scan fails with that error. */
  lemma {:induction false} ErrorPersists(dir: DirPath, l: Listing, k: nat, m: nat, recursive: bool, excludeExt: string)
    requires l.Entries? && k <= m <= |l.entries|
    requires ScanEntries(dir, l, k, recursive, excludeExt).Err?
    ensures ScanEntries(dir, l, m, recursive, excludeExt) == ScanEntries(dir, l, k, recursive, excludeExt)
    decreases m - k
  {
    if k < m {
      ErrorPersists(dir, l, k, m - 1, recursive, excludeExt);
    }
  }

  /**
   * Listing order: a successful scan of the first m entries extends the scan of
   * any shorter prefix, so the files of earlier entries come first.
   */
  lemma {:induction false} ScanGrows(dir: DirPath, l: Listing, k: nat, m: nat, recursive: bool, excludeExt: string)
    requires l.Entries? && k <= m <= |l.entries|
    requires ScanEntries(dir, l, m, recursive, excludeExt).Ok?
    ensures ScanEntries(dir, l, k, recursive, excludeExt).Ok?
    ensures ScanEntries(dir, l, k, recursive, excludeExt).value <= ScanEntries(dir, l, m, recursive, excludeExt).value
    decreases m - k
  {
    if k < m {
      ScanGrows(dir, l, k, m - 1, recursive, excludeExt);
    }
  }

  /** Scanning the first k entries sees only those entries, whatever follows them. */
  lemma {:induction false} ScanPrefix(dir: DirPath, a: seq<Entry>, b: seq<Entry>, k: nat, recursive: bool, excludeExt: string)
    requires k <= |a|
    ensures ScanEntries(dir, Entries(a + b), k, recursive, excludeExt) == ScanEntries(dir, Entries(a), k, recursive, excludeExt)
  {
    if k > 0 {
      ScanPrefix(dir, a, b, k - 1, recursive, excludeExt);
      assert (a + b)[k - 1] == a[k - 1];
    }
  }

  /**
   * A subdirectory met in a recursive scan contributes its own files, in their
   * order, right after everything listed before it.
   */
  lemma SubdirectorySpliced(dir: DirPath, a: seq<Entry>, n: string, c: Listing, excludeExt: string)
    requires Images(dir, Entries(a), true, excludeExt).Ok?
    requires Images(dir + [n], c, true, excludeExt).Ok?
    ensures Images(dir, Entries(a + [DirEntry(n, c)]), true, excludeExt)
         == Ok(Images(dir, Entries(a), true, excludeExt).value + Images(dir + [n], c, true, excludeExt).value)
  {
    ScanPrefix(dir, a, [DirEntry(n, c)], |a|, true, excludeExt);
  }

  /** A file appended to a listing is returned last, exactly when it is selected. */
  lemma FileAppended(dir: DirPath, a: seq<Entry>, n: string, recursive: bool, excludeExt: string)
    requires Images(dir, Entries(a), recursive, excludeExt).Ok?
    ensures Images(dir, Entries(a + [FileEntry(n)]), recursive, excludeExt)
         == Ok(Images(dir, Entries(a), recursive, excludeExt).value + (if Selected(n, excludeExt) then [FilePath(dir, n)] else []))
  {
    var l := Entries(a + [FileEntry(n)]);
    ScanPrefix(dir, a, [FileEntry(n)], |a|, recursive, excludeExt);
    FileStep(dir, l, |a| + 1, recursive, excludeExt);
  }

  /** The step of the scan at a regular file: the file is appended exactly when it is selected. */
  lemma FileStep(dir: DirPath, l: Listing, k: nat, recursive: bool, excludeExt: string)
    requires l.Entries? && 0 < k <= |l.entries| && l.entries[k - 1].FileEntry?
    requires ScanEntries(dir, l, k - 1, recursive, excludeExt).Ok?
    ensures ScanEntries(dir, l, k, recursive, excludeExt)
         == Ok(ScanEntries(dir, l, k - 1, recursive, excludeExt).value
               + (if Selected(l.entries[k - 1].name, excludeExt) then [FilePath(dir, l.entries[k - 1].name)] else []))
  {
    var prev := ScanEntries(dir, l, k - 1, recursive, excludeExt).value;
    assert prev + [] == prev;
  }

  // ---------------------------------------------------------------------------
  // An independent description of the same scan: which directories it reads
  // and which files it could return, as sets.

  /** Every directory the scan reads is listable: the root, and every subdirectory when recursive. */
  predicate Readable(l: Listing, recursive: bool)
    decreases l, 1
  {
    l.Entries? && ReadableFrom(l, |l.entries|, recursive)
  }

  predicate ReadableFrom(l: Listing, k: nat, recursive: bool)
    requires l.Entries? && k <= |l.entries|
    decreases l, 0, k
  {
    k == 0 ||
    (ReadableFrom(l, k - 1, recursive) &&
     (recursive && l.entries[k - 1].DirEntry? ==> Readable(l.entries[k - 1].contents, recursive)))
  }

  /** The regular files the scan visits: those listed in dir and, when recursive, in every subdirectory. */
  ghost function Visited(dir: DirPath, l: Listing, recursive: bool): set<FilePath>
    decreases l, 1
  {
    match l
    case Unreadable => {}
    case Entries(es) => VisitedFrom(dir, l, |es|, recursive)
  }

  ghost function VisitedFrom(dir: DirPath, l: Listing, k: nat, recursive: bool): set<FilePath>
    requires l.Entries? && k <= |l.entries|
    decreases l, 0, k
  {
    if k == 0 then {}
    else
      VisitedFrom(dir, l, k - 1, recursive) +
      match l.entries[k - 1]
      case FileEntry(n) => {FilePath(dir, n)}
      case DirEntry(n, c) => if recursive then Visited(dir + [n], c, recursive) else {}
      case OtherEntry(_) => {}
  }

  /** The scan succeeds exactly when every directory it reads is listable. */
  lemma {:induction false} ImagesSucceeds(dir: DirPath, l: Listing, recursive: bool, excludeExt: string)
    ensures Images(dir, l, recursive, excludeExt).Ok? <==> Readable(l, recursive)
    decreases l, 1
  {
    if l.Entries? {
      ScanSucceeds(dir, l, |l.entries|, recursive, excludeExt);
    }
  }

  lemma {:induction false} ScanSucceeds(dir: DirPath, l: Listing, k: nat, recursive: bool, excludeExt: string)
    requires l.Entries? && k <= |l.entries|
    ensures ScanEntries(dir, l, k, recursive, excludeExt).Ok? <==> ReadableFrom(l, k, recursive)
    decreases l, 0, k
  {
    if k > 0 {
      ScanSucceeds(dir, l, k - 1, recursive, excludeExt);
      var e := l.entries[k - 1];
      if e.DirEntry? && recursive {
        ImagesSucceeds(dir + [e.name], e.contents, recursive, excludeExt);
      }
    }
  }

  /** A successful scan returns exactly the visited files whose extension is selected. */
  lemma {:induction false} ImagesMembers(dir: DirPath, l: Listing, recursive: bool, excludeExt: string)
    requires Images(dir, l, recursive, excludeExt).Ok?
    ensures forall p :: p in Images(dir, l, recursive, excludeExt).value <==>
              p in Visited(dir, l, recursive) && Selected(p.name, excludeExt)
    decreases l, 1
  {
    ScanMembers(dir, l, |l.entries|, recursive, excludeExt);
  }

  lemma {:induction false} ScanMembers(dir: DirPath, l: Listing, k: nat, recursive: bool, excludeExt: string)
    requires l.Entries? && k <= |l.entries|
    requires ScanEntries(dir, l, k, recursive, excludeExt).Ok?
    ensures forall p :: p in ScanEntries(dir, l, k, recursive, excludeExt).value <==>
              p in VisitedFrom(dir, l, k, recursive) && Selected(p.name, excludeExt)
    decreases l, 0, k
  {
    if k > 0 {
      ScanMembers(dir, l, k - 1, recursive, excludeExt);
      var prev := ScanEntries(dir, l, k - 1, recursive, excludeExt).value;
      var cur := ScanEntries(dir, l, k, recursive, excludeExt).value;
      var seen := VisitedFrom(dir, l, k - 1, recursive);
      match l.entries[k - 1]
      case FileEntry(n) =>
        assert VisitedFrom(dir, l, k, recursive) == seen + {FilePath(dir, n)};
      case DirEntry(n, c) =>
        if recursive {
          ImagesMembers(dir + [n], c, recursive, excludeExt);
          assert cur == prev + Images(dir + [n], c, recursive, excludeExt).value;
          assert VisitedFrom(dir, l, k, recursive) == seen + Visited(dir + [n], c, recursive);
        } else {
          assert cur == prev;
          assert VisitedFrom(dir, l, k, recursive) == seen;
        }
      case OtherEntry(_) =>
        assert cur == prev;
        assert VisitedFrom(dir, l, k, recursive) == seen;
    }
  }

  /** Every visited file lies in dir or, when recursive, somewhere below it; without recursion, in dir itself. */
  lemma {:induction false} VisitedWithin(dir: DirPath, l: Listing, recursive: bool)
    ensures forall p :: p in Visited(dir, l, recursive) ==> dir <= p.dir && (!recursive ==> p.dir == dir)
    decreases l, 1
  {
    if l.Entries? {
      VisitedFromWithin(dir, l, |l.entries|, recursive);
    }
  }

  lemma {:induction false} VisitedFromWithin(dir: DirPath, l: Listing, k: nat, recursive: bool)
    requires l.Entries? && k <= |l.entries|
    ensures forall p :: p in VisitedFrom(dir, l, k, recursive) ==> dir <= p.dir && (!recursive ==> p.dir == dir)
    decreases l, 0, k
  {
    if k > 0 {
      VisitedFromWithin(dir, l, k - 1, recursive);
      match l.entries[k - 1]
      case FileEntry(n) =>
      case DirEntry(n, c) =>
        if recursive {
          VisitedWithin(dir + [n], c, recursive);
          forall p | p in Visited(dir + [n], c, recursive) ensures dir <= p.dir {
            assert dir <= dir + [n] <= p.dir;
          }
        }
      case OtherEntry(_) =>
    }
  }

  /**
   * Every returned path has a supported extension other than the excluded
   * one; without recursion it sits directly in the scanned directory.
   */
  lemma ImagesSound(dir: DirPath, l: Listing, recursive: bool, excludeExt: string)
    requires Images(dir, l, recursive, excludeExt).Ok?
    ensures forall p :: p in Images(dir, l, recursive, excludeExt).value ==>
              ExtOf(p.name) in SupportedInputs && ExtOf(p.name) != excludeExt &&
              dir <= p.dir && (!recursive ==> p.dir == dir)
  {
    ImagesMembers(dir, l, recursive, excludeExt);
    VisitedWithin(dir, l, recursive);
  }

  // ---------------------------------------------------------------------------
  // No path is returned twice when no directory lists a name twice.

  /** No element occurs twice. */
  predicate Distinct<T(==)>(s: seq<T>) {
    forall i, j :: 0 <= i < j < |s| ==> s[i] != s[j]
  }

  /** Every directory of the tree, the root and all below it, lists each name at most once. */
  predicate DistinctNames(l: Listing)
    decreases l, 1
  {
    l.Entries? ==>
      && (forall i, j :: 0 <= i < j < |l.entries| ==> l.entries[i].name != l.entries[j].name)
      && SubdirectoriesDistinct(l, |l.entries|)
  }

  predicate SubdirectoriesDistinct(l: Listing, k: nat)
    requires l.Entries? && k <= |l.entries|
    decreases l, 0, k
  {
    k == 0 ||
    (SubdirectoriesDistinct(l, k - 1) && (l.entries[k - 1].DirEntry? ==> DistinctNames(l.entries[k - 1].contents)))
  }

  /** The names of the first k entries. */
  function NamesBefore(es: seq<Entry>, k: nat): set<string>
    requires k <= |es|
  {
    if k == 0 then {} else NamesBefore(es, k - 1) + {es[k - 1].name}
  }

  /** The entry of dir a path below dir comes from: its own name when it sits in dir, else its first subdirectory. */
  function EntryKey(dir: DirPath, p: FilePath): string
    requires dir <= p.dir
  {
    if |p.dir| == |dir| then p.name else p.dir[|dir|]
  }

  /** With pairwise distinct names, the name of entry m is none of the names before it. */
  lemma {:induction false} NameNotBefore(es: seq<Entry>, m: nat, k: nat)
    requires k <= m < |es|
    requires forall i, j :: 0 <= i < j < |es| ==> es[i].name != es[j].name
    ensures es[m].name !in NamesBefore(es, k)
  {
    if k > 0 {
      NameNotBefore(es, m, k - 1);
    }
  }

  /** Two sequences without duplicates and without a common element concatenate to one without duplicates. */
  lemma DistinctConcat<T>(a: seq<T>, b: seq<T>)
    requires Distinct(a) && Distinct(b)
    requires forall x :: x in a ==> x !in b
    ensures Distinct(a + b)
  {
    forall i, j | 0 <= i < j < |a + b| ensures (a + b)[i] != (a + b)[j] {
      if i < |a| && |a| <= j {
        assert (a + b)[i] in a && (a + b)[j] == b[j - |a|];
      }
    }
  }

  /**
   * A successful scan of a tree whose directories list each name once returns
   * every path at most once, and every path lies below the scanned directory.
   */
  lemma {:induction false} ImagesDistinct(dir: DirPath, l: Listing, recursive: bool, excludeExt: string)
    requires Images(dir, l, recursive, excludeExt).Ok? && DistinctNames(l)
    ensures Distinct(Images(dir, l, recursive, excludeExt).value)
    ensures forall p :: p in Images(dir, l, recursive, excludeExt).value ==> dir <= p.dir
    decreases l, 1
  {
    ScanDistinct(dir, l, |l.entries|, recursive, excludeExt);
  }

  lemma {:induction false} ScanDistinct(dir: DirPath, l: Listing, k: nat, recursive: bool, excludeExt: string)
    requires l.Entries? && k <= |l.entries| && DistinctNames(l) && SubdirectoriesDistinct(l, k)
    requires ScanEntries(dir, l, k, recursive, excludeExt).Ok?
    ensures var files := ScanEntries(dir, l, k, recursive, excludeExt).value;
            && Distinct(files)
            && forall p :: p in files ==> dir <= p.dir && EntryKey(dir, p) in NamesBefore(l.entries, k)
    decreases l, 0, k, 1
  {
    if k > 0 {
      ScanDistinct(dir, l, k - 1, recursive, excludeExt);
      var prev := ScanEntries(dir, l, k - 1, recursive, excludeExt).value;
      var n := l.entries[k - 1].name;
      NameNotBefore(l.entries, k - 1, k - 1);
      var added := EntryContribution(dir, l, k, recursive, excludeExt);
      forall x | x in prev ensures x !in added {
        assert EntryKey(dir, x) != n;
      }
      DistinctConcat(prev, added);
    }
  }

  /**
   * What the k-th entry adds to the scan: no path twice, and every path below
   * dir and coming from that entry.
   */
  lemma {:induction false} EntryContribution(dir: DirPath, l: Listing, k: nat, recursive: bool, excludeExt: string)
    returns (added: seq<FilePath>)
    requires l.Entries? && 0 < k <= |l.entries| && SubdirectoriesDistinct(l, k)
    requires ScanEntries(dir, l, k, recursive, excludeExt).Ok?
    ensures ScanEntries(dir, l, k - 1, recursive, excludeExt).Ok?
    ensures ScanEntries(dir, l, k, recursive, excludeExt).value == ScanEntries(dir, l, k - 1, recursive, excludeExt).value + added
    ensures Distinct(added)
    ensures forall q :: q in added ==> dir <= q.dir && EntryKey(dir, q) == l.entries[k - 1].name
    decreases l, 0, k, 0
  {
    var n := l.entries[k - 1].name;
    match l.entries[k - 1]
    case FileEntry(_) =>
      FileStep(dir, l, k, recursive, excludeExt);
      added := if Selected(n, excludeExt) then [FilePath(dir, n)] else [];
    case DirEntry(_, c) =>
      if recursive {
        DirectoryStep(dir, l, k, recursive, excludeExt);
        ImagesDistinct(dir + [n], c, recursive, excludeExt);
        added := Images(dir + [n], c, recursive, excludeExt).value;
        forall q | q in added ensures dir <= q.dir && EntryKey(dir, q) == n {
          assert dir + [n] <= q.dir;
          assert q.dir[|dir|] == (dir + [n])[|dir|];
        }
      } else {
        SkipStep(dir, l, k, recursive, excludeExt);
        added := [];
      }
    case OtherEntry(_) =>
      SkipStep(dir, l, k, recursive, excludeExt);
      added := [];
  }

  /** The step of a recursive scan at a subdirectory: the subdirectory's own files follow. */
  lemma DirectoryStep(dir: DirPath, l: Listing, k: nat, recursive: bool, excludeExt: string)
    requires l.Entries? && 0 < k <= |l.entries| && l.entries[k - 1].DirEntry? && recursive
    requires ScanEntries(dir, l, k, recursive, excludeExt).Ok?
    ensures ScanEntries(dir, l, k - 1, recursive, excludeExt).Ok?
    ensures Images(dir + [l.entries[k - 1].name], l.entries[k - 1].contents, recursive, excludeExt).Ok?
    ensures ScanEntries(dir, l, k, recursive, excludeExt).value
         == ScanEntries(dir, l, k - 1, recursive, excludeExt).value
            + Images(dir + [l.entries[k - 1].name], l.entries[k - 1].contents, recursive, excludeExt).value
  {
  }

  /** The step of the scan at an entry it does not collect: nothing is added. */
  lemma SkipStep(dir: DirPath, l: Listing, k: nat, recursive: bool, excludeExt: string)
    requires l.Entries? && 0 < k <= |l.entries|
    requires l.entries[k - 1].OtherEntry? || (l.entries[k - 1].DirEntry? && !recursive)
    requires ScanEntries(dir, l, k, recursive, excludeExt).Ok?
    ensures ScanEntries(dir, l, k - 1, recursive, excludeExt).Ok?
    ensures ScanEntries(dir, l, k, recursive, excludeExt).value == ScanEntries(dir, l, k - 1, recursive, excludeExt).value + []
  {
    assert ScanEntries(dir, l, k - 1, recursive, excludeExt).value + []
        == ScanEntries(dir, l, k - 1, recursive, excludeExt).value;
  }
}
