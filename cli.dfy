/**
 * main (src/index.ts:161-224) and its exit paths (src/index.ts:227-230): parse
 * the arguments, check that the directory exists and is a directory, locate
 * the images, run the worker pool over them and tally the results. The
 * filesystem enters as a stat function (the directory tree each path shows),
 * the set of paths the existence check finds, the codec and the unlink oracle.
 */
module Cli {
  import opened Wrappers
  import opened Formats
  import opened Paths
  import opened Args
  import opened Locator
  import opened Converter
  import opened Cleanup
  import opened Scheduler

  /** What fs.stat reports for a directory path. */
  datatype StatResult = Missing | NotADirectory | Directory(listing: Listing)

  /** How a run of the program ends. */
  datatype RunOutcome =
    | Exited(status: int)
    | NothingToConvert
    | Completed(results: seq<ConversionResult>, converted: nat, failed: nat,
                existing: set<FilePath>, warned: seq<FilePath>)

  /** The status a failed directory check exits with, and the catch handler's status. */
  const FailureStatus := 1

  /**
   * The files main hands to the workers, when it gets that far: none when the
   * path is not a directory or the scan throws; otherwise every file is
   * selected and lies under the directory (in it, without --recursive), and
   * no file comes twice when no directory of the tree lists a name twice.
   */
  function Located(f: Format, o: Options, stat: DirPath -> StatResult): (r: Option<seq<FilePath>>)
    ensures !stat(o.dir).Directory? ==> r.None?
    ensures stat(o.dir).Directory? ==>
              (r.Some? <==> Images(o.dir, stat(o.dir).listing, o.recursive, CanonicalExt(f)).Ok?)
    ensures r.Some? ==> forall p :: p in r.value ==>
              Selected(p.name, CanonicalExt(f)) && o.dir <= p.dir && (!o.recursive ==> p.dir == o.dir)
    ensures r.Some? && DistinctNames(stat(o.dir).listing) ==> Distinct(r.value)
  {
    if !stat(o.dir).Directory? then None
    else
      var l := stat(o.dir).listing;
      var images := Images(o.dir, l, o.recursive, CanonicalExt(f));
      if images.Ok? then
        ImagesSound(o.dir, l, o.recursive, CanonicalExt(f));
        assert DistinctNames(l) ==> Distinct(images.value) by {
          if DistinctNames(l) {
            ImagesDistinct(o.dir, l, o.recursive, CanonicalExt(f));
          }
        }
        Some(images.value)
      else None
  }

  /**
   * What a completed run over `files` promises, starting from the paths in
   * `existing`: one result per file, each for a listed file and its
   * destination; a file whose destination already existed is refused without
   * --force; the filesystem afterwards holds the successful destinations and
   * has lost the originals that --rm could delete; the warnings name the
   * originals it could not; and the tally counts the successful results.
   */
  ghost predicate ConvertedAll(files: seq<FilePath>, f: Format, o: Options, existing: set<FilePath>,
                               codec: EncodeRequest -> CodecReply, unlinkFails: FilePath -> nat -> bool,
                               out: RunOutcome)
  {
    && out.Completed? && |out.results| == |files|
    && (forall j :: 0 <= j < |out.results| ==> out.results[j].src in files)
    && (forall p :: p in files ==> exists j :: 0 <= j < |out.results| && out.results[j].src == p)
    && (Distinct(files) ==> forall i, j :: 0 <= i < j < |out.results| ==> out.results[i].src != out.results[j].src)
    && (forall j :: 0 <= j < |out.results| ==> out.results[j].dest == DestPathFor(out.results[j].src, f))
    && RefusedWhenPresent(existing, o.force, out.results)
    && out.existing == (existing - Removed(out.results, o.removeOriginal, unlinkFails)) + WrittenDests(out.results)
    && (forall q :: q in out.warned <==> q in Unremoved(out.results, o.removeOriginal, unlinkFails))
    && out.converted == CountOk(out.results) && out.failed == |out.results| - out.converted
  }

  /**
   * Every result is what convertOne returns for its own file against the
   * paths in `existing` plus the destinations written by the results before
   * it, which convertOne cannot tell from the paths that existed when its
   * worker ran it.
   */
  ghost predicate FromConvertOne(results: seq<ConversionResult>, f: Format, o: Options, existing: set<FilePath>,
                                 codec: EncodeRequest -> CodecReply) {
    forall j :: 0 <= j < |results| ==>
      results[j] == ConvertOne(results[j].src, f, o, existing + WrittenBefore(results, j), codec).result
  }

  /** The pool over a non-empty list of located files, then the tally. */
  method ConvertAll(files: seq<FilePath>, f: Format, o: Options, existing: set<FilePath>,
                    codec: EncodeRequest -> CodecReply, unlinkFails: FilePath -> nat -> bool)
    returns (out: RunOutcome)
    requires files != [] && forall i :: 0 <= i < |files| ==> Selected(files[i].name, CanonicalExt(f))
    ensures ConvertedAll(files, f, o, existing, codec, unlinkFails, out)
    ensures FromConvertOne(out.results, f, o, existing, codec)
  {
    SelectedSourcesAreNotDests(files, f);
    var pool := new Pool(files, f, o, existing, codec, unlinkFails);
    pool.Run();
    var results, claimOrder := pool.results, pool.claimOrder;
    out := Tally(results, pool.existing, pool.warned);
    RunAccounted(files, f, o, existing, codec, unlinkFails, claimOrder, out);
  }

  /** The outcome main reports: the results, how many succeeded and how many failed. */
  function Tally(results: seq<ConversionResult>, existing: set<FilePath>, warned: seq<FilePath>): (out: RunOutcome)
    ensures out.Completed? && out.results == results && out.existing == existing && out.warned == warned
    ensures out.converted <= |results| && out.converted + out.failed == |results|
    ensures out.failed == 0 <==> forall j :: 0 <= j < |results| ==> results[j].ok
  {
    CountOkBounds(results);
    Completed(results, CountOk(results), |results| - CountOk(results), existing, warned)
  }

  /** What the pool's run guarantees, read as the outcome of the whole conversion. */
  lemma RunAccounted(files: seq<FilePath>, f: Format, o: Options, existing: set<FilePath>,
                     codec: EncodeRequest -> CodecReply, unlinkFails: FilePath -> nat -> bool,
                     claimOrder: seq<nat>, out: RunOutcome)
    requires out.Completed? && out.converted == CountOk(out.results) && out.failed == |out.results| - out.converted
    requires |out.results| == |files| && |claimOrder| == |files|
    requires forall j :: 0 <= j < |claimOrder| ==> claimOrder[j] < |files|
    requires forall i, j :: 0 <= i < j < |claimOrder| ==> claimOrder[i] != claimOrder[j]
    requires forall j :: 0 <= j < |out.results| ==> out.results[j].src == files[claimOrder[j]]
    requires forall j :: 0 <= j < |out.results| ==> out.results[j].dest == DestPathFor(out.results[j].src, f)
    requires forall p :: p in files ==> exists j :: 0 <= j < |out.results| && out.results[j].src == p
    requires RefusedWhenPresent(existing, o.force, out.results)
    requires out.existing == (existing - Removed(out.results, o.removeOriginal, unlinkFails)) + WrittenDests(out.results)
    requires forall q :: q in out.warned <==> q in Unremoved(out.results, o.removeOriginal, unlinkFails)
    ensures ConvertedAll(files, f, o, existing, codec, unlinkFails, out)
  {
    ClaimedSources(files, claimOrder, out.results);
  }

  /** Results taken from distinct claims of listed files are for listed files, and for distinct ones when the files are. */
  lemma ClaimedSources(files: seq<FilePath>, claimOrder: seq<nat>, results: seq<ConversionResult>)
    requires |results| == |claimOrder|
    requires forall j :: 0 <= j < |claimOrder| ==> claimOrder[j] < |files|
    requires forall i, j :: 0 <= i < j < |claimOrder| ==> claimOrder[i] != claimOrder[j]
    requires forall j :: 0 <= j < |results| ==> results[j].src == files[claimOrder[j]]
    ensures forall j :: 0 <= j < |results| ==> results[j].src in files
    ensures Distinct(files) ==> forall i, j :: 0 <= i < j < |results| ==> results[i].src != results[j].src
  {
    forall j | 0 <= j < |results| ensures results[j].src in files {
      assert results[j].src == files[claimOrder[j]];
    }
    if Distinct(files) {
      forall i, j | 0 <= i < j < |results| ensures results[i].src != results[j].src {
        assert claimOrder[i] != claimOrder[j];
      }
    }
  }

  /**
   * A file whose destination did not exist before the run and is no other
   * listed file's destination gets exactly the codec's reply, with or
   * without --force: a success when the codec writes the destination, a
   * failure carrying the codec's message otherwise.
   */
  lemma FreshDestinationFollowsCodec(files: seq<FilePath>, f: Format, o: Options, existing: set<FilePath>,
                                     codec: EncodeRequest -> CodecReply, unlinkFails: FilePath -> nat -> bool,
                                     out: RunOutcome, j: int)
    requires ConvertedAll(files, f, o, existing, codec, unlinkFails, out)
    requires FromConvertOne(out.results, f, o, existing, codec)
    requires Distinct(files) && 0 <= j < |out.results|
    requires DestPathFor(out.results[j].src, f) !in existing
    requires forall p :: p in files && p != out.results[j].src ==> DestPathFor(p, f) != DestPathFor(out.results[j].src, f)
    ensures var src := out.results[j].src;
            var reply := codec(EncodeRequest(src, DestPathFor(src, f), f, EncoderQuality(f, o.quality)));
            && (out.results[j].ok <==> reply.Written?)
            && (!out.results[j].ok ==> out.results[j].reason == Some(reply.message))
  {
    var results := out.results;
    var src := results[j].src;
    assert forall i :: 0 <= i < j ==> results[i].src != src;
    NotWrittenEarlier(files, f, results, j);
    assert results[j] == ConvertOne(src, f, o, existing + WrittenBefore(results, j), codec).result;
    ConvertOneOutcome(src, f, o, existing + WrittenBefore(results, j), codec);
  }

  /**
   * No result before the j-th, each for another listed file, wrote the j-th
   * result's destination when no other listed file has that destination.
   */
  lemma NotWrittenEarlier(files: seq<FilePath>, f: Format, results: seq<ConversionResult>, j: int)
    requires 0 <= j < |results|
    requires forall i :: 0 <= i < |results| ==> results[i].src in files && results[i].dest == DestPathFor(results[i].src, f)
    requires forall i :: 0 <= i < j ==> results[i].src != results[j].src
    requires forall p :: p in files && p != results[j].src ==> DestPathFor(p, f) != DestPathFor(results[j].src, f)
    ensures DestPathFor(results[j].src, f) !in WrittenBefore(results, j)
  {
    forall i | 0 <= i < j ensures results[i].dest != DestPathFor(results[j].src, f) {
      assert results[i].src in files;
    }
  }

  /**
   * When the codec writes every request, the files are distinct, none of
   * their destinations exists yet and no two of them share a destination,
   * every file is converted and none fails (a.jpg and b.png to webp in an
   * otherwise empty directory give two conversions and no failure).
   */
  lemma FreshRunConvertsAll(files: seq<FilePath>, f: Format, o: Options, existing: set<FilePath>,
                            codec: EncodeRequest -> CodecReply, unlinkFails: FilePath -> nat -> bool, out: RunOutcome)
    requires ConvertedAll(files, f, o, existing, codec, unlinkFails, out)
    requires FromConvertOne(out.results, f, o, existing, codec)
    requires Distinct(files) && forall i :: 0 <= i < |files| ==> DestPathFor(files[i], f) !in existing
    requires forall i, k :: 0 <= i < k < |files| ==> DestPathFor(files[i], f) != DestPathFor(files[k], f)
    requires forall r :: codec(r).Written?
    ensures out.converted == |files| && out.failed == 0
  {
    forall j | 0 <= j < |out.results| ensures out.results[j].ok {
      var src := out.results[j].src;
      var k :| 0 <= k < |files| && files[k] == src;
      forall p | p in files && p != src ensures DestPathFor(p, f) != DestPathFor(src, f) {
        var i :| 0 <= i < |files| && files[i] == p;
        assert i != k;
      }
      FreshDestinationFollowsCodec(files, f, o, existing, codec, unlinkFails, out, j);
    }
    CountOkBounds(out.results);
  }

  /**
   * Without --force, a run over files whose destinations all exist converts
   * nothing, writes nothing, deletes nothing and warns about nothing.
   */
  lemma RerunChangesNothing(files: seq<FilePath>, f: Format, o: Options, existing: set<FilePath>,
                            codec: EncodeRequest -> CodecReply, unlinkFails: FilePath -> nat -> bool, out: RunOutcome)
    requires ConvertedAll(files, f, o, existing, codec, unlinkFails, out)
    requires !o.force && forall p :: p in files ==> DestPathFor(p, f) in existing
    ensures out.converted == 0 && out.failed == |files|
    ensures out.existing == existing && out.warned == []
  {
    AllRefused(files, f, existing, out.results);
    NothingChanges(existing, out.existing, out.warned, out.results, o.removeOriginal, unlinkFails);
  }

  /** Without --force, every result whose destination already exists is a failure. */
  lemma AllRefused(files: seq<FilePath>, f: Format, existing: set<FilePath>, results: seq<ConversionResult>)
    requires RefusedWhenPresent(existing, false, results)
    requires forall j :: 0 <= j < |results| ==> results[j].src in files && results[j].dest == DestPathFor(results[j].src, f)
    requires forall p :: p in files ==> DestPathFor(p, f) in existing
    ensures forall j :: 0 <= j < |results| ==> !results[j].ok && results[j].reason == Some(ExistsReason)
  {
    forall j | 0 <= j < |results| ensures results[j].dest in existing {
      assert results[j].src in files;
    }
  }

  /** When no conversion succeeds the filesystem is left as it was, nothing is counted and nothing is warned about. */
  lemma NothingChanges(existing: set<FilePath>, existing': set<FilePath>, warned: seq<FilePath>,
                       results: seq<ConversionResult>, removeOriginal: bool, unlinkFails: FilePath -> nat -> bool)
    requires forall j :: 0 <= j < |results| ==> !results[j].ok
    requires existing' == (existing - Removed(results, removeOriginal, unlinkFails)) + WrittenDests(results)
    requires forall q :: q in warned <==> q in Unremoved(results, removeOriginal, unlinkFails)
    ensures CountOk(results) == 0 && existing' == existing && warned == []
  {
    CountOkBounds(results);
    assert Removed(results, removeOriginal, unlinkFails) == {};
    assert WrittenDests(results) == {};
    assert Unremoved(results, removeOriginal, unlinkFails) == {};
    NoMembersIsEmpty(warned);
  }

  lemma NoMembersIsEmpty<T>(s: seq<T>)
    ensures (forall x :: x !in s) ==> s == []
  {
    if s != [] {
      assert s[0] in s;
    }
  }

  /** Every successful conversion's destination is on disk afterwards. */
  lemma SuccessesExist(existing: set<FilePath>, existing': set<FilePath>, results: seq<ConversionResult>,
                       removeOriginal: bool, unlinkFails: FilePath -> nat -> bool)
    requires existing' == (existing - Removed(results, removeOriginal, unlinkFails)) + WrittenDests(results)
    ensures forall j :: 0 <= j < |results| && results[j].ok ==> results[j].dest in existing'
  {
    forall j | 0 <= j < |results| && results[j].ok ensures results[j].dest in existing' {
      assert results[j].dest in WrittenDests(results);
    }
  }

  /**
   * What --rm leaves behind: the original of every successful conversion is
   * gone, and not warned about, when one of its unlink attempts succeeds, and
   * warned about otherwise. Without --rm no path is removed and nothing is
   * warned about.
   */
  lemma OriginalsRemovedOrWarned(files: seq<FilePath>, f: Format, o: Options, existing: set<FilePath>,
                                 codec: EncodeRequest -> CodecReply, unlinkFails: FilePath -> nat -> bool, out: RunOutcome)
    requires ConvertedAll(files, f, o, existing, codec, unlinkFails, out)
    requires forall i :: 0 <= i < |files| ==> Selected(files[i].name, CanonicalExt(f))
    ensures o.removeOriginal ==>
              forall j :: 0 <= j < |out.results| && out.results[j].ok ==>
                if Deletable(unlinkFails(out.results[j].src))
                then out.results[j].src !in out.existing && out.results[j].src !in out.warned
                else out.results[j].src in out.warned
    ensures !o.removeOriginal ==> existing <= out.existing && out.warned == []
  {
    var results := out.results;
    SelectedSourcesAreNotDests(files, f);
    SourcesNotWritten(files, f, results);
    if o.removeOriginal {
      forall j | 0 <= j < |results| && results[j].ok
        ensures if Deletable(unlinkFails(results[j].src))
                then results[j].src !in out.existing && results[j].src !in out.warned
                else results[j].src in out.warned
      {
        if Deletable(unlinkFails(results[j].src)) {
          assert results[j].src in Removed(results, o.removeOriginal, unlinkFails);
        } else {
          assert results[j].src in Unremoved(results, o.removeOriginal, unlinkFails);
        }
      }
    } else {
      assert Removed(results, o.removeOriginal, unlinkFails) == {};
      assert Unremoved(results, o.removeOriginal, unlinkFails) == {};
      NoMembersIsEmpty(out.warned);
    }
  }

  /** No source of a result is written as any result's destination, since located files are never destinations. */
  lemma SourcesNotWritten(files: seq<FilePath>, f: Format, results: seq<ConversionResult>)
    requires NoSourceIsDest(files, f)
    requires forall j :: 0 <= j < |results| ==> results[j].src in files && results[j].dest == DestPathFor(results[j].src, f)
    ensures forall j :: 0 <= j < |results| ==> results[j].src !in WrittenDests(results)
  {
    forall i, j | 0 <= i < |results| && 0 <= j < |results| ensures results[i].dest != results[j].src {
      var k :| 0 <= k < |files| && files[k] == results[i].src;
      assert DestPathFor(files[k], f) !in files;
    }
  }

  /**
   * Two runs in a row over the same files, the second without --force against
   * what the first left: every file the first run converted is refused the
   * second time, and when the first run converted everything the second
   * changes nothing at all.
   */
  lemma SecondRunRefused(files: seq<FilePath>, f: Format, o1: Options, o2: Options, existing: set<FilePath>,
                         codec1: EncodeRequest -> CodecReply, codec2: EncodeRequest -> CodecReply,
                         unlinkFails1: FilePath -> nat -> bool, unlinkFails2: FilePath -> nat -> bool,
                         first: RunOutcome, second: RunOutcome)
    requires ConvertedAll(files, f, o1, existing, codec1, unlinkFails1, first)
    requires ConvertedAll(files, f, o2, first.existing, codec2, unlinkFails2, second) && !o2.force
    ensures forall i, j :: 0 <= i < |first.results| && 0 <= j < |second.results| ==>
              first.results[i].ok && second.results[j].src == first.results[i].src ==>
                !second.results[j].ok && second.results[j].reason == Some(ExistsReason)
    ensures first.failed == 0 ==> second.converted == 0 && second.existing == first.existing && second.warned == []
  {
    SuccessesExist(existing, first.existing, first.results, o1.removeOriginal, unlinkFails1);
    if first.failed == 0 {
      CountOkBounds(first.results);
      forall p | p in files ensures DestPathFor(p, f) in first.existing {
        var i :| 0 <= i < |first.results| && first.results[i].src == p;
        assert first.results[i].ok;
      }
      RerunChangesNothing(files, f, o2, first.existing, codec2, unlinkFails2, second);
    }
  }

  /**
   * The whole program on argv (the tokens after the program name): a help or
   * usage exit, a failed directory check, an empty scan, or a completed run
   * over exactly the located files, each converted once when no directory
   * lists a name twice.
   */
  method RunCli(argv: seq<string>, cwd: DirPath, resolve: string -> DirPath, stat: DirPath -> StatResult,
                existing: set<FilePath>, codec: EncodeRequest -> CodecReply, unlinkFails: FilePath -> nat -> bool)
    returns (out: RunOutcome)
    ensures Interpret(argv, cwd, resolve).Exit? ==> out == Exited(Interpret(argv, cwd, resolve).status)
    ensures Interpret(argv, cwd, resolve).Parsed? ==>
              var f, o := Interpret(argv, cwd, resolve).format, Interpret(argv, cwd, resolve).options;
              && (Located(f, o, stat).None? ==> out == Exited(FailureStatus))
              && (Located(f, o, stat) == Some([]) ==> out == NothingToConvert)
              && (Located(f, o, stat).Some? && Located(f, o, stat).value != [] ==>
                    && ConvertedAll(Located(f, o, stat).value, f, o, existing, codec, unlinkFails, out)
                    && FromConvertOne(out.results, f, o, existing, codec)
                    && (DistinctNames(stat(o.dir).listing) ==>
                          forall i, j :: 0 <= i < j < |out.results| ==> out.results[i].src != out.results[j].src))
  {
    var parsed := ParseArgs(argv, cwd, resolve);
    if parsed.Exit? {
      return Exited(parsed.status);
    }
    var f, o := parsed.format, parsed.options;
    var st := stat(o.dir);
    if !st.Directory? {
      return Exited(FailureStatus);
    }
    var excludeExt := CanonicalExt(f);
    var located := ListImages(o.dir, st.listing, o.recursive, excludeExt);
    if located.Err? {
      return Exited(FailureStatus);
    }
    var files := located.value;
    if |files| == 0 {
      return NothingToConvert;
    }
    assert Located(f, o, stat) == Some(files);
    assert forall i :: 0 <= i < |files| ==> files[i] in files;
    out := ConvertAll(files, f, o, existing, codec, unlinkFails);
  }
}
