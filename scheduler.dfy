/**
 * The work-claim scheduler and the tally in main (src/index.ts:185-224).
 * Workers share one cursor `idx` over `files`. A claim reads files[idx] and
 * advances the cursor with no await in between, so claims are atomic. A
 * worker's finish step converts the claimed file, pushes the result and
 * deletes the original when asked. Run lets any worker take its next step in
 * any order, so it covers every interleaving of these atomic steps.
 */
module Scheduler {
  import opened Wrappers
  import opened Formats
  import opened Paths
  import opened Args
  import opened Converter
  import opened Cleanup

  /** The pool size policy: at most this many workers. */
  const Concurrency: nat := 4

  /** Math.min(concurrency, files.length). */
  function WorkerCount(n: nat): (w: nat)
    ensures w <= Concurrency && w <= n
    ensures n > 0 ==> w > 0
    ensures w == Concurrency || w == n
  {
    if n < Concurrency then n else Concurrency
  }

  /** The number of occupied slots among the first n. */
  function BusyUpTo<T>(slots: seq<Option<T>>, n: nat): nat
    requires n <= |slots|
  {
    if n == 0 then 0 else BusyUpTo(slots, n - 1) + (if slots[n - 1].Some? then 1 else 0)
  }

  /** The number of workers whose slot is occupied. */
  function Busy<T>(slots: seq<Option<T>>): nat {
    BusyUpTo(slots, |slots|)
  }

  lemma {:induction false} BusyUpToUpdate<T>(s: seq<Option<T>>, w: nat, x: Option<T>, n: nat)
    requires w < |s| && n <= |s|
    ensures BusyUpTo(s[w := x], n) ==
            BusyUpTo(s, n) + (if w < n then (if x.Some? then 1 else 0) - (if s[w].Some? then 1 else 0) else 0)
    decreases n
  {
    if n > 0 {
      BusyUpToUpdate(s, w, x, n - 1);
    }
  }

  lemma BusyUpdate<T>(s: seq<Option<T>>, w: nat, x: Option<T>)
    requires w < |s|
    ensures Busy(s[w := x]) == Busy(s) - (if s[w].Some? then 1 else 0) + (if x.Some? then 1 else 0)
  {
    BusyUpToUpdate(s, w, x, |s|);
  }

  /** Among the first n slots some is occupied exactly when the count is positive. */
  lemma {:induction false} BusyUpToPositive<T>(s: seq<Option<T>>, n: nat)
    requires n <= |s|
    ensures BusyUpTo(s, n) > 0 <==> exists w :: 0 <= w < n && s[w].Some?
    decreases n
  {
    if n > 0 {
      BusyUpToPositive(s, n - 1);
      if s[n - 1].Some? {
        assert 0 <= n - 1 < n && s[n - 1].Some?;
      }
    }
  }

  /** No slot occupied, nobody busy. */
  lemma BusyNone<T>(s: seq<Option<T>>)
    requires forall w :: 0 <= w < |s| ==> s[w].None?
    ensures Busy(s) == 0
  {
    BusyUpToPositive(s, |s|);
  }

  /** Some worker is busy exactly when Busy is positive. */
  lemma BusyPositive<T>(s: seq<Option<T>>)
    ensures Busy(s) > 0 <==> exists w :: 0 <= w < |s| && s[w].Some?
  {
    BusyUpToPositive(s, |s|);
  }

  /** results.filter(r => r.ok).length */
  function CountOk(results: seq<ConversionResult>): (n: nat)
    ensures n <= |results|
    ensures n == 0 || exists j :: 0 <= j < |results| && results[j].ok
  {
    if results == [] then 0
    else CountOk(results[..|results| - 1]) + (if results[|results| - 1].ok then 1 else 0)
  }

  /** The tally is at most the number of results; it is zero when all failed and full when all succeeded. */
  lemma {:induction false} CountOkBounds(results: seq<ConversionResult>)
    ensures CountOk(results) <= |results|
    ensures CountOk(results) == 0 <==> forall j :: 0 <= j < |results| ==> !results[j].ok
    ensures CountOk(results) == |results| <==> forall j :: 0 <= j < |results| ==> results[j].ok
  {
    if results != [] {
      var init := results[..|results| - 1];
      CountOkBounds(init);
      assert forall j :: 0 <= j < |init| ==> init[j] == results[j];
    }
  }

  /** The tally splits over concatenation. */
  lemma {:induction false} CountOkAppend(a: seq<ConversionResult>, b: seq<ConversionResult>)
    ensures CountOk(a + b) == CountOk(a) + CountOk(b)
    decreases |b|
  {
    if b == [] {
      assert a + b == a;
    } else {
      assert (a + b)[..|a + b| - 1] == a + b[..|b| - 1];
      assert (a + b)[|a + b| - 1] == b[|b| - 1];
      CountOkAppend(a, b[..|b| - 1]);
    }
  }

  /** Taking one result out of the list takes its share out of the tally. */
  lemma CountOkRemove(b: seq<ConversionResult>, k: nat)
    requires k < |b|
    ensures CountOk(b) == CountOk(b[..k] + b[k + 1..]) + (if b[k].ok then 1 else 0)
  {
    var front, x, back := b[..k], b[k], b[k + 1..];
    assert b == front + b[k..];
    assert b[k..] == [x] + back;
    assert [x][..0] == [];
    assert CountOk([x]) == (if x.ok then 1 else 0);
    CountOkAppend(front, b[k..]);
    CountOkAppend([x], back);
    CountOkAppend(front, back);
  }

  /** Taking out the element at k takes one copy of it out of the multiset. */
  lemma MultisetWithout(b: seq<ConversionResult>, k: nat)
    requires k < |b|
    ensures multiset(b[..k] + b[k + 1..]) == multiset(b) - multiset{b[k]}
  {
    assert b == b[..k] + [b[k]] + b[k + 1..];
  }

  /** The tally does not depend on the order in which the workers pushed their results. */
  lemma {:induction false} CountOkPermutation(a: seq<ConversionResult>, b: seq<ConversionResult>)
    requires multiset(a) == multiset(b)
    ensures CountOk(a) == CountOk(b)
    decreases |a|
  {
    if a == [] {
      assert |b| == |multiset(b)| == 0;
    } else {
      var x := a[|a| - 1];
      var a' := a[..|a| - 1];
      assert a == a' + [x];
      assert x in multiset(b);
      var k :| 0 <= k < |b| && b[k] == x;
      var b' := b[..k] + b[k + 1..];
      MultisetWithout(b, k);
      assert multiset(a') == multiset(a) - multiset{x};
      CountOkPermutation(a', b');
      CountOkAppend(a', [x]);
      CountOkRemove(b, k);
    }
  }

  // ---------------------------------------------------------------------------
  // The pool's invariants, stated over plain values.

  /**
   * Every index below the cursor is accounted for exactly once: either its
   * result has been pushed (claimOrder) or a worker holds it (inFlight).
   */
  ghost predicate ClaimsExact(idx: nat, n: nat, inFlight: seq<Option<nat>>, claimOrder: seq<nat>) {
    && idx <= n
    && |claimOrder| + Busy(inFlight) == idx
    && (forall j :: 0 <= j < |claimOrder| ==> claimOrder[j] < idx)
    && (forall w :: 0 <= w < |inFlight| && inFlight[w].Some? ==> inFlight[w].value < idx)
    && (forall i, j :: 0 <= i < j < |claimOrder| ==> claimOrder[i] != claimOrder[j])
    && (forall v, w :: 0 <= v < w < |inFlight| && inFlight[v].Some? ==> inFlight[v] != inFlight[w])
    && (forall j, w :: 0 <= j < |claimOrder| && 0 <= w < |inFlight| ==> inFlight[w] != Some(claimOrder[j]))
    && (forall k :: 0 <= k < idx ==> k in claimOrder || Some(k) in inFlight)
  }

  /**
   * Each result is what convertOne returned for the file it was claimed for,
   * against the paths that existed when it ran; its destination is no file of
   * the list. As far as convertOne can tell (it looks only at whether the
   * destination exists) those paths are the ones before the run plus the
   * destinations written by the results pushed earlier.
   */
  ghost predicate ResultsMatchClaims(files: seq<FilePath>, f: Format, o: Options, codec: EncodeRequest -> CodecReply,
                                     initial: set<FilePath>, results: seq<ConversionResult>, claimOrder: seq<nat>) {
    && |claimOrder| == |results|
    && (forall j :: 0 <= j < |claimOrder| ==> claimOrder[j] < |files|)
    && (forall j :: 0 <= j < |results| ==>
          results[j].src == files[claimOrder[j]] && results[j].dest !in files)
    && (forall j {:trigger WrittenBefore(results, j)} :: 0 <= j < |results| ==>
          results[j] == ConvertOne(files[claimOrder[j]], f, o, initial + WrittenBefore(results, j), codec).result)
  }

  /** Without --force, a result whose destination existed before the run is refused with the exists reason. */
  ghost predicate RefusedWhenPresent(initial: set<FilePath>, force: bool, results: seq<ConversionResult>) {
    forall j :: 0 <= j < |results| && !force && results[j].dest in initial ==>
      !results[j].ok && results[j].reason == Some(ExistsReason)
  }

  /**
   * The filesystem changes only as the results say: new paths are
   * destinations of successful conversions, removed paths are originals of
   * successful conversions with --rm whose unlink succeeds, successful
   * destinations stay, and every warning is about the original of a
   * successful conversion with --rm whose three unlink attempts all fail.
   */
  ghost predicate FilesAccounted(initial: set<FilePath>, existing: set<FilePath>, results: seq<ConversionResult>,
                                 warned: seq<FilePath>, removeOriginal: bool, unlinkFails: FilePath -> nat -> bool) {
    && (forall p {:trigger p in existing, p in initial} :: p in existing && p !in initial ==>
          exists j :: 0 <= j < |results| && results[j].ok && results[j].dest == p)
    && (forall p {:trigger p in initial, p in existing} :: p in initial && p !in existing ==>
          removeOriginal && Deletable(unlinkFails(p)) &&
          exists j :: 0 <= j < |results| && results[j].ok && results[j].src == p)
    && (forall j :: 0 <= j < |results| && results[j].ok ==> results[j].dest in existing)
    && (forall q :: q in warned ==>
          removeOriginal && !Deletable(unlinkFails(q)) &&
          exists j :: 0 <= j < |results| && results[j].ok && results[j].src == q)
  }

  /**
   * Every successful original under --rm that no worker still holds is dealt
   * with: gone when one of its unlink attempts succeeds, warned about when
   * all fail.
   */
  ghost predicate OriginalsSettled(results: seq<ConversionResult>, pending: seq<Option<FilePath>>, existing: set<FilePath>,
                                   warned: seq<FilePath>, removeOriginal: bool, unlinkFails: FilePath -> nat -> bool) {
    forall j :: 0 <= j < |results| && removeOriginal && results[j].ok && Some(results[j].src) !in pending ==>
      && (Deletable(unlinkFails(results[j].src)) ==> results[j].src !in existing)
      && (!Deletable(unlinkFails(results[j].src)) ==> results[j].src in warned)
  }

  /** The destinations the successful conversions wrote. */
  function WrittenDests(results: seq<ConversionResult>): set<FilePath> {
    set j | 0 <= j < |results| && results[j].ok :: results[j].dest
  }

  /** The destinations written by the successful results pushed before the j-th. */
  function WrittenBefore(results: seq<ConversionResult>, j: int): set<FilePath> {
    set i | 0 <= i < j && i < |results| && results[i].ok :: results[i].dest
  }

  /**
   * Pushing a result does not change what was written before an earlier
   * position, and before the new result's own position everything pushed so
   * far was written.
   */
  lemma WrittenBeforePush(results: seq<ConversionResult>, res: ConversionResult, j: int)
    requires 0 <= j <= |results|
    ensures WrittenBefore(results + [res], j) == WrittenBefore(results, j)
    ensures j == |results| ==> WrittenBefore(results, j) == WrittenDests(results)
  {
    var results' := results + [res];
    forall p | p in WrittenBefore(results', j) ensures p in WrittenBefore(results, j) {
      var i :| 0 <= i < j && i < |results'| && results'[i].ok && results'[i].dest == p;
      assert results'[i] == results[i];
    }
    forall p | p in WrittenBefore(results, j) ensures p in WrittenBefore(results', j) {
      var i :| 0 <= i < j && i < |results| && results[i].ok && results[i].dest == p;
      assert results'[i] == results[i];
    }
  }

  /** The originals of successful conversions under --rm that one of the unlink attempts removes. */
  ghost function Removed(results: seq<ConversionResult>, removeOriginal: bool, unlinkFails: FilePath -> nat -> bool): set<FilePath> {
    set j | 0 <= j < |results| && removeOriginal && results[j].ok && Deletable(unlinkFails(results[j].src)) :: results[j].src
  }

  /** The originals of successful conversions under --rm whose unlink attempts all fail. */
  ghost function Unremoved(results: seq<ConversionResult>, removeOriginal: bool, unlinkFails: FilePath -> nat -> bool): set<FilePath> {
    set j | 0 <= j < |results| && removeOriginal && results[j].ok && !Deletable(unlinkFails(results[j].src)) :: results[j].src
  }

  /** A claim by an idle worker keeps every index accounted for exactly once. */
  lemma ClaimKeepsClaimsExact(idx: nat, n: nat, inFlight: seq<Option<nat>>, claimOrder: seq<nat>, w: nat)
    requires ClaimsExact(idx, n, inFlight, claimOrder)
    requires w < |inFlight| && inFlight[w].None? && idx < n
    ensures ClaimsExact(idx + 1, n, inFlight[w := Some(idx)], claimOrder)
  {
    BusyUpdate(inFlight, w, Some(idx));
    var inFlight' := inFlight[w := Some(idx)];
    forall k | 0 <= k < idx + 1 ensures k in claimOrder || Some(k) in inFlight' {
      if k == idx {
        assert inFlight'[w] == Some(k);
      } else if Some(k) in inFlight {
        var v :| 0 <= v < |inFlight| && inFlight[v] == Some(k);
        assert inFlight'[v] == Some(k);
      }
    }
  }

  /** A finish moves the worker's index from in flight to the pushed results. */
  lemma FinishKeepsClaimsExact(idx: nat, n: nat, inFlight: seq<Option<nat>>, claimOrder: seq<nat>, w: nat)
    requires ClaimsExact(idx, n, inFlight, claimOrder)
    requires w < |inFlight| && inFlight[w].Some?
    ensures ClaimsExact(idx, n, inFlight[w := None], claimOrder + [inFlight[w].value])
  {
    BusyUpdate(inFlight, w, None);
    var k := inFlight[w].value;
    var inFlight' := inFlight[w := None];
    var claimOrder' := claimOrder + [k];
    forall kk | 0 <= kk < idx ensures kk in claimOrder' || Some(kk) in inFlight' {
      if kk !in claimOrder {
        var v :| 0 <= v < |inFlight| && inFlight[v] == Some(kk);
        if v == w {
          assert claimOrder'[|claimOrder|] == kk;
        } else {
          assert inFlight'[v] == Some(kk);
        }
      }
    }
  }

  /** Pushing the result of a conversion, before any deletion, keeps the filesystem accounted. */
  lemma PushKeepsFilesAccounted(initial: set<FilePath>, existing: set<FilePath>, results: seq<ConversionResult>,
                                warned: seq<FilePath>, removeOriginal: bool, unlinkFails: FilePath -> nat -> bool,
                                step: ConvertStep)
    requires FilesAccounted(initial, existing, results, warned, removeOriginal, unlinkFails)
    requires existing <= step.existing && step.existing - existing <= {step.result.dest}
    requires step.result.ok ==> step.result.dest in step.existing
    requires !step.result.ok ==> step.existing == existing
    ensures FilesAccounted(initial, step.existing, results + [step.result], warned, removeOriginal, unlinkFails)
  {
    var results' := results + [step.result];
    assert results'[|results|] == step.result;
    forall p | p in step.existing && p !in initial
      ensures exists j :: 0 <= j < |results'| && results'[j].ok && results'[j].dest == p
    {
      if p in existing {
        var j :| 0 <= j < |results| && results[j].ok && results[j].dest == p;
        assert results'[j] == results[j];
      } else {
        assert p in step.existing - existing;
        assert p == step.result.dest && step.result.ok;
      }
    }
    forall p | p in initial && p !in step.existing
      ensures exists j :: 0 <= j < |results'| && results'[j].ok && results'[j].src == p
    {
      var j :| 0 <= j < |results| && results[j].ok && results[j].src == p;
      assert results'[j] == results[j];
    }
    forall j | 0 <= j < |results'| && results'[j].ok ensures results'[j].dest in step.existing {
      if j < |results| {
        assert results'[j] == results[j];
      }
    }
    forall q | q in warned
      ensures exists j :: 0 <= j < |results'| && results'[j].ok && results'[j].src == q
    {
      var j :| 0 <= j < |results| && results[j].ok && results[j].src == q;
      assert results'[j] == results[j];
    }
  }

  /**
   * Deleting the original of a successful conversion under --rm when an
   * unlink attempt succeeds, or warning about it when all fail, keeps the
   * filesystem accounted, provided the original is no pushed destination.
   */
  lemma RemovalKeepsFilesAccounted(initial: set<FilePath>, existing: set<FilePath>, results: seq<ConversionResult>,
                                   warned: seq<FilePath>, removeOriginal: bool, unlinkFails: FilePath -> nat -> bool,
                                   src: FilePath, deleted: bool)
    requires FilesAccounted(initial, existing, results, warned, removeOriginal, unlinkFails)
    requires removeOriginal && exists j :: 0 <= j < |results| && results[j].ok && results[j].src == src
    requires forall j :: 0 <= j < |results| && results[j].ok ==> results[j].dest != src
    requires deleted <==> Deletable(unlinkFails(src))
    ensures FilesAccounted(initial, if deleted then existing - {src} else existing, results,
                           if deleted then warned else warned + [src], removeOriginal, unlinkFails)
  {
  }

  /**
   * A path that is the source of no result exists exactly when it existed
   * before the run or a successful result wrote it: only originals are ever
   * removed.
   */
  lemma NonSourcePresence(initial: set<FilePath>, existing: set<FilePath>, results: seq<ConversionResult>,
                          warned: seq<FilePath>, removeOriginal: bool, unlinkFails: FilePath -> nat -> bool, p: FilePath)
    requires FilesAccounted(initial, existing, results, warned, removeOriginal, unlinkFails)
    requires forall j :: 0 <= j < |results| ==> results[j].src != p
    ensures p in existing <==> p in initial + WrittenDests(results)
  {
    if p in existing && p !in initial {
      var j :| 0 <= j < |results| && results[j].ok && results[j].dest == p;
      assert p in WrittenDests(results);
    }
    if p in WrittenDests(results) {
      var j :| 0 <= j < |results| && results[j].ok && results[j].dest == p;
    }
  }

  /**
   * A converting worker pushing its result keeps every successful original
   * settled: a new one under --rm is held by the worker, and no destination
   * written is an original.
   */
  lemma ConvertKeepsSettled(results: seq<ConversionResult>, pending: seq<Option<FilePath>>, existing: set<FilePath>,
                            warned: seq<FilePath>, removeOriginal: bool, unlinkFails: FilePath -> nat -> bool,
                            w: nat, res: ConversionResult, existing': set<FilePath>)
    requires OriginalsSettled(results, pending, existing, warned, removeOriginal, unlinkFails)
    requires w < |pending| && pending[w].None?
    requires existing' <= existing + {res.dest}
    requires forall j :: 0 <= j < |results| ==> results[j].src != res.dest
    ensures OriginalsSettled(results + [res], pending[w := if res.ok && removeOriginal then Some(res.src) else None],
                             existing', warned, removeOriginal, unlinkFails)
  {
    var results', pending' := results + [res], pending[w := if res.ok && removeOriginal then Some(res.src) else None];
    forall j | 0 <= j < |results'|
      ensures removeOriginal && results'[j].ok && Some(results'[j].src) !in pending' ==>
              && (Deletable(unlinkFails(results'[j].src)) ==> results'[j].src !in existing')
              && (!Deletable(unlinkFails(results'[j].src)) ==> results'[j].src in warned)
    {
      if j == |results| {
        assert res.ok && removeOriginal ==> pending'[w] == Some(res.src);
      } else {
        assert results'[j] == results[j];
        assert Some(results[j].src) in pending ==> Some(results[j].src) in pending' by {
          if Some(results[j].src) in pending {
            var v :| 0 <= v < |pending| && pending[v] == Some(results[j].src);
            assert pending'[v] == pending[v];
          }
        }
      }
    }
  }

  /** A worker that has dealt with its pending original keeps every successful original settled. */
  lemma RemoveKeepsSettled(results: seq<ConversionResult>, pending: seq<Option<FilePath>>, existing: set<FilePath>,
                           warned: seq<FilePath>, removeOriginal: bool, unlinkFails: FilePath -> nat -> bool,
                           w: nat, deleted: bool)
    requires OriginalsSettled(results, pending, existing, warned, removeOriginal, unlinkFails)
    requires w < |pending| && pending[w].Some?
    requires deleted <==> Deletable(unlinkFails(pending[w].value))
    ensures var src := pending[w].value;
            OriginalsSettled(results, pending[w := None], if deleted then existing - {src} else existing,
                             if deleted then warned else warned + [src], removeOriginal, unlinkFails)
  {
    var src, pending' := pending[w].value, pending[w := None];
    var existing', warned' := (if deleted then existing - {src} else existing), (if deleted then warned else warned + [src]);
    forall j | 0 <= j < |results|
      ensures removeOriginal && results[j].ok && Some(results[j].src) !in pending' ==>
              && (Deletable(unlinkFails(results[j].src)) ==> results[j].src !in existing')
              && (!Deletable(unlinkFails(results[j].src)) ==> results[j].src in warned')
    {
      if results[j].src == src {
        assert !deleted ==> warned'[|warned|] == src;
      } else {
        assert Some(results[j].src) in pending ==> Some(results[j].src) in pending' by {
          if Some(results[j].src) in pending {
            var v :| 0 <= v < |pending| && pending[v] == Some(results[j].src);
            assert pending'[v] == pending[v];
          }
        }
        assert results[j].src in warned ==> results[j].src in warned';
      }
    }
  }

  /**
   * Once no worker holds an original, the filesystem is the initial one minus
   * the removed originals plus the written destinations, and the warnings
   * name exactly the originals that could not be removed.
   */
  lemma FinalState(initial: set<FilePath>, existing: set<FilePath>, results: seq<ConversionResult>,
                   warned: seq<FilePath>, removeOriginal: bool, unlinkFails: FilePath -> nat -> bool,
                   pending: seq<Option<FilePath>>)
    requires FilesAccounted(initial, existing, results, warned, removeOriginal, unlinkFails)
    requires OriginalsSettled(results, pending, existing, warned, removeOriginal, unlinkFails)
    requires forall w :: 0 <= w < |pending| ==> pending[w].None?
    ensures existing == (initial - Removed(results, removeOriginal, unlinkFails)) + WrittenDests(results)
    ensures forall q :: q in warned <==> q in Unremoved(results, removeOriginal, unlinkFails)
  {
    var rm := removeOriginal;
    var removed, written := Removed(results, rm, unlinkFails), WrittenDests(results);
    forall j | 0 <= j < |results| ensures Some(results[j].src) !in pending {
      forall v | 0 <= v < |pending| ensures pending[v] != Some(results[j].src) {
      }
    }
    forall p ensures p in existing <==> p in (initial - removed) + written {
      if p in removed {
        var j :| 0 <= j < |results| && rm && results[j].ok && Deletable(unlinkFails(results[j].src)) && results[j].src == p;
        assert p !in existing;
      }
      if p in written {
        var j :| 0 <= j < |results| && results[j].ok && results[j].dest == p;
      }
      if p in initial && p !in existing {
        var j :| 0 <= j < |results| && results[j].ok && results[j].src == p;
        assert p in removed;
      }
      if p in existing && p !in initial {
        var j :| 0 <= j < |results| && results[j].ok && results[j].dest == p;
        assert p in written;
      }
    }
    forall q ensures q in warned <==> q in Unremoved(results, rm, unlinkFails) {
      if q in warned {
        var j :| 0 <= j < |results| && results[j].ok && results[j].src == q;
        assert q in Unremoved(results, rm, unlinkFails);
      }
      if q in Unremoved(results, rm, unlinkFails) {
        var j :| 0 <= j < |results| && rm && results[j].ok && !Deletable(unlinkFails(results[j].src)) && results[j].src == q;
      }
    }
  }

  /** Every pending original is the original of a pushed successful conversion, and --rm was given. */
  ghost predicate PendingAccounted(pending: seq<Option<FilePath>>, results: seq<ConversionResult>, removeOriginal: bool) {
    forall w :: 0 <= w < |pending| && pending[w].Some? ==>
      removeOriginal && exists j :: 0 <= j < |results| && results[j].ok && results[j].src == pending[w].value
  }

  /** Pushing a result keeps the pending originals accounted. */
  lemma PushKeepsPending(pending: seq<Option<FilePath>>, results: seq<ConversionResult>, removeOriginal: bool,
                         res: ConversionResult)
    requires PendingAccounted(pending, results, removeOriginal)
    ensures PendingAccounted(pending, results + [res], removeOriginal)
  {
    var results' := results + [res];
    forall v | 0 <= v < |pending| && pending[v].Some?
      ensures removeOriginal && exists j :: 0 <= j < |results'| && results'[j].ok && results'[j].src == pending[v].value
    {
      var j :| 0 <= j < |results| && results[j].ok && results[j].src == pending[v].value;
      assert results'[j] == results[j];
    }
  }

  /** Holding the original of a successful conversion under --rm keeps the pending originals accounted. */
  lemma HoldKeepsPending(pending: seq<Option<FilePath>>, results: seq<ConversionResult>, removeOriginal: bool,
                         w: nat, src: FilePath)
    requires PendingAccounted(pending, results, removeOriginal) && w < |pending|
    requires removeOriginal && exists j :: 0 <= j < |results| && results[j].ok && results[j].src == src
    ensures PendingAccounted(pending[w := Some(src)], results, removeOriginal)
  {
  }

  /** No worker converts a file and deletes an original at the same time. */
  ghost predicate OneJobEach(inFlight: seq<Option<nat>>, pending: seq<Option<FilePath>>) {
    forall w :: 0 <= w < |pending| && w < |inFlight| && pending[w].Some? ==> inFlight[w].None?
  }

  /** An idle worker taking a claim keeps each worker on one job. */
  lemma ClaimKeepsOneJobEach(inFlight: seq<Option<nat>>, pending: seq<Option<FilePath>>, w: nat, claim: Option<nat>)
    requires OneJobEach(inFlight, pending) && w < |inFlight| && w < |pending| && pending[w].None?
    ensures OneJobEach(inFlight[w := claim], pending)
  {
  }

  /** A worker giving up its claim keeps each worker on one job. */
  lemma ReleaseKeepsOneJobEach(inFlight: seq<Option<nat>>, pending: seq<Option<FilePath>>, w: nat)
    requires OneJobEach(inFlight, pending) && w < |inFlight|
    ensures OneJobEach(inFlight[w := None], pending)
  {
  }

  /** A worker with no claim taking an original to delete keeps each worker on one job. */
  lemma HoldKeepsOneJobEach(inFlight: seq<Option<nat>>, pending: seq<Option<FilePath>>, w: nat, src: FilePath)
    requires OneJobEach(inFlight, pending) && w < |inFlight| && w < |pending| && inFlight[w].None?
    ensures OneJobEach(inFlight, pending[w := Some(src)])
  {
  }

  /** A worker done with its original keeps each worker on one job. */
  lemma DropPendingKeepsOneJobEach(inFlight: seq<Option<nat>>, pending: seq<Option<FilePath>>, w: nat)
    requires OneJobEach(inFlight, pending) && w < |pending|
    ensures OneJobEach(inFlight, pending[w := None])
  {
  }

  /**
   * A pending original is the original of a pushed successful conversion and,
   * being a file of the list, no pushed destination; once it is dealt with the
   * remaining pending originals stay accounted.
   */
  lemma PendingOriginal(files: seq<FilePath>, f: Format, o: Options, codec: EncodeRequest -> CodecReply,
                        initial: set<FilePath>, results: seq<ConversionResult>, claimOrder: seq<nat>,
                        pending: seq<Option<FilePath>>, removeOriginal: bool, w: nat)
    requires ResultsMatchClaims(files, f, o, codec, initial, results, claimOrder)
    requires PendingAccounted(pending, results, removeOriginal)
    requires w < |pending| && pending[w].Some?
    ensures removeOriginal && exists j :: 0 <= j < |results| && results[j].ok && results[j].src == pending[w].value
    ensures forall j :: 0 <= j < |results| ==> results[j].dest != pending[w].value
    ensures PendingAccounted(pending[w := None], results, removeOriginal)
  {
    var j :| 0 <= j < |results| && results[j].ok && results[j].src == pending[w].value;
    assert pending[w].value == files[claimOrder[j]];
  }

  /**
   * Pushing the result of converting the claimed files[k] against the paths
   * before the run plus every destination written so far keeps results
   * matched with their claims.
   */
  lemma PushKeepsResultsMatch(files: seq<FilePath>, f: Format, o: Options, codec: EncodeRequest -> CodecReply,
                              initial: set<FilePath>, results: seq<ConversionResult>, claimOrder: seq<nat>,
                              k: nat, res: ConversionResult)
    requires ResultsMatchClaims(files, f, o, codec, initial, results, claimOrder)
    requires k < |files| && res == ConvertOne(files[k], f, o, initial + WrittenDests(results), codec).result
    requires res.dest !in files
    ensures ResultsMatchClaims(files, f, o, codec, initial, results + [res], claimOrder + [k])
  {
    var results', claimOrder' := results + [res], claimOrder + [k];
    forall j | 0 <= j < |results'|
      ensures && results'[j].src == files[claimOrder'[j]] && results'[j].dest !in files
              && results'[j] == ConvertOne(files[claimOrder'[j]], f, o, initial + WrittenBefore(results', j), codec).result
    {
      WrittenBeforePush(results, res, j);
      if j < |results| {
        assert results'[j] == results[j] && claimOrder'[j] == claimOrder[j];
        assert results[j] == ConvertOne(files[claimOrder[j]], f, o, initial + WrittenBefore(results, j), codec).result;
      }
    }
  }

  /**
   * Converting files[k] against the current paths gives the result convertOne
   * gives against the paths before the run plus every destination written so
   * far, so pushing it keeps results matched with their claims.
   */
  lemma ConvertKeepsResultsMatch(files: seq<FilePath>, f: Format, o: Options, codec: EncodeRequest -> CodecReply,
                                 initial: set<FilePath>, existing: set<FilePath>, results: seq<ConversionResult>,
                                 warned: seq<FilePath>, unlinkFails: FilePath -> nat -> bool,
                                 claimOrder: seq<nat>, k: nat)
    requires FilesAccounted(initial, existing, results, warned, o.removeOriginal, unlinkFails)
    requires ResultsMatchClaims(files, f, o, codec, initial, results, claimOrder)
    requires NoSourceIsDest(files, f) && k < |files|
    ensures ResultsMatchClaims(files, f, o, codec, initial, results + [ConvertOne(files[k], f, o, existing, codec).result],
                               claimOrder + [k])
  {
    var res := ConvertOne(files[k], f, o, existing, codec).result;
    assert res.dest !in files;
    forall j | 0 <= j < |results| ensures results[j].src != res.dest {
      assert results[j].src == files[claimOrder[j]];
    }
    NonSourcePresence(initial, existing, results, warned, o.removeOriginal, unlinkFails, res.dest);
    ConvertOneSeesOnlyDest(files[k], f, o, existing, initial + WrittenDests(results), codec);
    PushKeepsResultsMatch(files, f, o, codec, initial, results, claimOrder, k, res);
  }

  /**
   * Pushing the result of converting files[k] against the current paths keeps
   * RefusedWhenPresent: a destination present before the run is no file of
   * the list, so it is still present and convertOne refuses it.
   */
  lemma PushKeepsRefused(files: seq<FilePath>, f: Format, o: Options, codec: EncodeRequest -> CodecReply,
                         initial: set<FilePath>, existing: set<FilePath>, results: seq<ConversionResult>,
                         warned: seq<FilePath>, unlinkFails: FilePath -> nat -> bool,
                         claimOrder: seq<nat>, k: nat)
    requires FilesAccounted(initial, existing, results, warned, o.removeOriginal, unlinkFails)
    requires ResultsMatchClaims(files, f, o, codec, initial, results, claimOrder)
    requires RefusedWhenPresent(initial, o.force, results)
    requires NoSourceIsDest(files, f) && k < |files|
    ensures RefusedWhenPresent(initial, o.force, results + [ConvertOne(files[k], f, o, existing, codec).result])
  {
    var res := ConvertOne(files[k], f, o, existing, codec).result;
    var dest := DestPathFor(files[k], f);
    assert dest !in files;
    if !o.force && dest in initial {
      forall j | 0 <= j < |results| ensures results[j].src != dest {
        assert results[j].src == files[claimOrder[j]];
      }
      NonSourcePresence(initial, existing, results, warned, o.removeOriginal, unlinkFails, dest);
    }
    var results' := results + [res];
    forall j | 0 <= j < |results'| && !o.force && results'[j].dest in initial
      ensures !results'[j].ok && results'[j].reason == Some(ExistsReason)
    {
      if j < |results| {
        assert results'[j] == results[j];
      }
    }
  }

  /**
   * Each result is what convertOne returned for its own source against the
   * paths before the run plus the destinations written by the results pushed
   * before it, and names that source's destination.
   */
  lemma ResultsAreConversions(files: seq<FilePath>, f: Format, o: Options, codec: EncodeRequest -> CodecReply,
                              initial: set<FilePath>, results: seq<ConversionResult>, claimOrder: seq<nat>)
    requires ResultsMatchClaims(files, f, o, codec, initial, results, claimOrder)
    ensures forall j :: 0 <= j < |results| ==>
              && results[j].dest == DestPathFor(results[j].src, f)
              && results[j] == ConvertOne(results[j].src, f, o, initial + WrittenBefore(results, j), codec).result
  {
    forall j | 0 <= j < |results|
      ensures && results[j].dest == DestPathFor(results[j].src, f)
              && results[j] == ConvertOne(results[j].src, f, o, initial + WrittenBefore(results, j), codec).result
    {
      assert results[j] == ConvertOne(files[claimOrder[j]], f, o, initial + WrittenBefore(results, j), codec).result;
    }
  }

  /** Every invariant of the pool, over the values of its fields. */
  ghost predicate PoolInvariant(files: seq<FilePath>, f: Format, o: Options, codec: EncodeRequest -> CodecReply,
                                unlinkFails: FilePath -> nat -> bool, workers: nat, initial: set<FilePath>,
                                idx: nat, inFlight: seq<Option<nat>>, pending: seq<Option<FilePath>>,
                                results: seq<ConversionResult>, existing: set<FilePath>, warned: seq<FilePath>,
                                claimOrder: seq<nat>) {
    && |inFlight| == workers && |pending| == workers
    && (|files| > 0 ==> workers > 0)
    && OneJobEach(inFlight, pending)
    && NoSourceIsDest(files, f)
    && ClaimsExact(idx, |files|, inFlight, claimOrder)
    && ResultsMatchClaims(files, f, o, codec, initial, results, claimOrder)
    && RefusedWhenPresent(initial, o.force, results)
    && FilesAccounted(initial, existing, results, warned, o.removeOriginal, unlinkFails)
    && PendingAccounted(pending, results, o.removeOriginal)
  }

  /**
   * A worker pushing the result of converting its claimed file against the
   * current paths keeps every invariant: its claim moves to the pushed
   * results, the filesystem changes as convertOne says, and under --rm the
   * original of a successful conversion becomes the worker's pending original.
   */
  lemma PushKeepsInvariant(files: seq<FilePath>, f: Format, o: Options, codec: EncodeRequest -> CodecReply,
                           unlinkFails: FilePath -> nat -> bool, workers: nat, initial: set<FilePath>,
                           idx: nat, inFlight: seq<Option<nat>>, pending: seq<Option<FilePath>>,
                           results: seq<ConversionResult>, existing: set<FilePath>, warned: seq<FilePath>,
                           claimOrder: seq<nat>, w: nat)
    requires PoolInvariant(files, f, o, codec, unlinkFails, workers, initial,
                           idx, inFlight, pending, results, existing, warned, claimOrder)
    requires OriginalsSettled(results, pending, existing, warned, o.removeOriginal, unlinkFails)
    requires w < |inFlight| && inFlight[w].Some? && inFlight[w].value < |files|
    ensures var k := inFlight[w].value;
            var step := ConvertOne(files[k], f, o, existing, codec);
            var pending' := if step.result.ok && o.removeOriginal then pending[w := Some(files[k])] else pending;
            && PoolInvariant(files, f, o, codec, unlinkFails, workers, initial, idx, inFlight[w := None], pending',
                             results + [step.result], step.existing, warned, claimOrder + [k])
            && OriginalsSettled(results + [step.result], pending', step.existing, warned, o.removeOriginal, unlinkFails)
  {
    var k := inFlight[w].value;
    var step := ConvertOne(files[k], f, o, existing, codec);
    var res, rm := step.result, o.removeOriginal;
    assert pending[w].None?;
    assert res.dest !in files;
    forall j | 0 <= j < |results| ensures results[j].src != res.dest {
      assert results[j].src == files[claimOrder[j]];
    }
    ConvertKeepsResultsMatch(files, f, o, codec, initial, existing, results, warned, unlinkFails, claimOrder, k);
    PushKeepsRefused(files, f, o, codec, initial, existing, results, warned, unlinkFails, claimOrder, k);
    PushKeepsFilesAccounted(initial, existing, results, warned, rm, unlinkFails, step);
    PushKeepsPending(pending, results, rm, res);
    FinishKeepsClaimsExact(idx, |files|, inFlight, claimOrder, w);
    ReleaseKeepsOneJobEach(inFlight, pending, w);
    ConvertKeepsSettled(results, pending, existing, warned, rm, unlinkFails, w, res, step.existing);
    if res.ok && rm {
      assert (results + [res])[|results|] == res;
      HoldKeepsPending(pending, results + [res], rm, w, res.src);
      HoldKeepsOneJobEach(inFlight[w := None], pending, w, res.src);
    } else {
      assert pending[w := None] == pending;
    }
  }

  /**
   * A worker done with its pending original keeps every invariant: the
   * original is gone when one of its unlink attempts succeeds and warned
   * about otherwise.
   */
  lemma RemoveKeepsInvariant(files: seq<FilePath>, f: Format, o: Options, codec: EncodeRequest -> CodecReply,
                             unlinkFails: FilePath -> nat -> bool, workers: nat, initial: set<FilePath>,
                             idx: nat, inFlight: seq<Option<nat>>, pending: seq<Option<FilePath>>,
                             results: seq<ConversionResult>, existing: set<FilePath>, warned: seq<FilePath>,
                             claimOrder: seq<nat>, w: nat, deleted: bool)
    requires PoolInvariant(files, f, o, codec, unlinkFails, workers, initial,
                           idx, inFlight, pending, results, existing, warned, claimOrder)
    requires OriginalsSettled(results, pending, existing, warned, o.removeOriginal, unlinkFails)
    requires w < |pending| && pending[w].Some?
    requires deleted <==> Deletable(unlinkFails(pending[w].value))
    ensures var src := pending[w].value;
            var existing' := if deleted then existing - {src} else existing;
            var warned' := if deleted then warned else warned + [src];
            && PoolInvariant(files, f, o, codec, unlinkFails, workers, initial, idx, inFlight, pending[w := None],
                             results, existing', warned', claimOrder)
            && OriginalsSettled(results, pending[w := None], existing', warned', o.removeOriginal, unlinkFails)
  {
    var src := pending[w].value;
    PendingOriginal(files, f, o, codec, initial, results, claimOrder, pending, o.removeOriginal, w);
    DropPendingKeepsOneJobEach(inFlight, pending, w);
    RemovalKeepsFilesAccounted(initial, existing, results, warned, o.removeOriginal, unlinkFails, src, deleted);
    RemoveKeepsSettled(results, pending, existing, warned, o.removeOriginal, unlinkFails, w, deleted);
  }

  /**
   * Once the cursor has reached the end and no worker holds a claim, every
   * file has had its result pushed, exactly once.
   */
  lemma AllClaimsPushed(files: seq<FilePath>, f: Format, o: Options, codec: EncodeRequest -> CodecReply,
                        initial: set<FilePath>, results: seq<ConversionResult>, claimOrder: seq<nat>,
                        inFlight: seq<Option<nat>>)
    requires ClaimsExact(|files|, |files|, inFlight, claimOrder)
    requires ResultsMatchClaims(files, f, o, codec, initial, results, claimOrder)
    requires forall w :: 0 <= w < |inFlight| ==> inFlight[w].None?
    ensures |results| == |files| && |claimOrder| == |files|
    ensures forall k :: 0 <= k < |files| ==> k in claimOrder
    ensures forall j :: 0 <= j < |claimOrder| ==> claimOrder[j] < |files|
    ensures forall i, j :: 0 <= i < j < |claimOrder| ==> claimOrder[i] != claimOrder[j]
    ensures forall j :: 0 <= j < |results| ==> results[j].src == files[claimOrder[j]]
    ensures forall p :: p in files ==> exists j :: 0 <= j < |results| && results[j].src == p
  {
    BusyNone(inFlight);
    forall k | 0 <= k < |files| ensures k in claimOrder {
      assert Some(k) !in inFlight;
    }
    ClaimedFilesCovered(files, results, claimOrder);
  }

  /** When every index was claimed and each result is about its claim, every file has a result. */
  lemma ClaimedFilesCovered(files: seq<FilePath>, results: seq<ConversionResult>, claimOrder: seq<nat>)
    requires |claimOrder| == |results| && forall k :: 0 <= k < |files| ==> k in claimOrder
    requires forall j :: 0 <= j < |results| ==> claimOrder[j] < |files| && results[j].src == files[claimOrder[j]]
    ensures forall p :: p in files ==> exists j :: 0 <= j < |results| && results[j].src == p
  {
    forall p | p in files ensures exists j :: 0 <= j < |results| && results[j].src == p {
      var k :| 0 <= k < |files| && files[k] == p;
      assert k in claimOrder;
      var j :| 0 <= j < |claimOrder| && claimOrder[j] == k;
      assert results[j].src == p;
    }
  }

  /** No file in the list is the destination of a file in the list. */
  ghost predicate NoSourceIsDest(files: seq<FilePath>, f: Format) {
    forall k {:trigger DestPathFor(files[k], f)} :: 0 <= k < |files| ==> DestPathFor(files[k], f) !in files
  }

  /** The locator's selection guarantees that no source is another source's destination. */
  lemma SelectedSourcesAreNotDests(files: seq<FilePath>, f: Format)
    requires forall i :: 0 <= i < |files| ==> Selected(files[i].name, CanonicalExt(f))
    ensures NoSourceIsDest(files, f)
  {
    forall k | 0 <= k < |files| ensures DestPathFor(files[k], f) !in files {
      SelectedNonEmpty(files[k].name, CanonicalExt(f));
      forall i | 0 <= i < |files| ensures files[i] != DestPathFor(files[k], f) {
        SelectedIsNotDest(files[i], files[k], f);
      }
    }
  }

  class Pool {
    const files: seq<FilePath>
    const format: Format
    const options: Options
    const codec: EncodeRequest -> CodecReply
    /** unlinkFails(src)(t): attempt t (from 0) to unlink src throws. */
    const unlinkFails: FilePath -> nat -> bool
    const workers: nat
    /** The paths that existed before the pool started. */
    ghost const initial: set<FilePath>

    /** The shared claim cursor. */
    var idx: nat
    /** For each worker, the index of the file it claimed and is converting. */
    var inFlight: seq<Option<nat>>
    /** For each worker, the original it still has to delete. */
    var pending: seq<Option<FilePath>>
    /** Results in the order the workers pushed them. */
    var results: seq<ConversionResult>
    /** The paths that currently exist. */
    var existing: set<FilePath>
    /** Originals whose deletion failed three times, in warning order. */
    var warned: seq<FilePath>
    /** claimOrder[j] is the index in files of the file results[j] is about. */
    ghost var claimOrder: seq<nat>

    ghost predicate Valid()
      reads this
    {
      PoolInvariant(files, format, options, codec, unlinkFails, workers, initial,
                    idx, inFlight, pending, results, existing, warned, claimOrder)
    }

    /** Every successful original under --rm that no worker holds any more is gone or warned about. */
    ghost predicate Settled()
      reads this
    {
      OriginalsSettled(results, pending, existing, warned, options.removeOriginal, unlinkFails)
    }

    /** A worker is idle when it neither converts nor deletes. */
    ghost predicate Idle(w: nat)
      reads this
      requires w < |inFlight| && w < |pending|
    {
      inFlight[w].None? && pending[w].None?
    }

    /** Steps left: three per unclaimed file, two per conversion under way, one per pending deletion. */
    function Remaining(): int
      reads this
    {
      3 * (|files| - idx) + 2 * Busy(inFlight) + Busy(pending)
    }

    constructor (files: seq<FilePath>, format: Format, options: Options, existing: set<FilePath>,
                 codec: EncodeRequest -> CodecReply, unlinkFails: FilePath -> nat -> bool)
      requires NoSourceIsDest(files, format)
      ensures Valid() && Settled()
      ensures this.files == files && this.format == format && this.options == options
      ensures this.codec == codec && this.unlinkFails == unlinkFails
      ensures workers == WorkerCount(|files|) && initial == existing
      ensures idx == 0 && results == [] && claimOrder == [] && warned == []
      ensures this.existing == existing
      ensures forall w :: 0 <= w < workers ==> Idle(w)
    {
      this.files := files;
      this.format := format;
      this.options := options;
      this.codec := codec;
      this.unlinkFails := unlinkFails;
      this.workers := WorkerCount(|files|);
      this.initial := existing;
      this.existing := existing;
      idx := 0;
      inFlight := seq(WorkerCount(|files|), _ => None);
      pending := seq(WorkerCount(|files|), _ => None);
      results := [];
      warned := [];
      claimOrder := [];
      new;
      BusyNone(inFlight);
    }

    /** An idle worker finds idx < files.length and claims files[idx++]. */
    method Claim(w: nat)
      requires Valid() && Settled() && w < workers && Idle(w) && idx < |files|
      modifies this
      ensures Valid() && Settled()
      ensures idx == old(idx) + 1 && inFlight == old(inFlight)[w := Some(old(idx))]
      ensures pending == old(pending) && results == old(results)
      ensures claimOrder == old(claimOrder)
      ensures existing == old(existing) && warned == old(warned)
      ensures Remaining() < old(Remaining())
    {
      BusyUpdate(inFlight, w, Some(idx));
      ClaimKeepsClaimsExact(idx, |files|, inFlight, claimOrder, w);
      ClaimKeepsOneJobEach(inFlight, pending, w, Some(idx));
      inFlight := inFlight[w := Some(idx)];
      idx := idx + 1;
    }

    /**
     * A converting worker awaits convertOne on its file, against the paths
     * that exist at that moment, and pushes the result; when the conversion
     * succeeded and --rm was given, the original becomes pending deletion.
     */
    method Convert(w: nat)
      requires Valid() && Settled() && w < workers && inFlight[w].Some?
      modifies this
      ensures Valid() && Settled()
      ensures old(inFlight[w].value) < |files|
      ensures var k := old(inFlight[w].value);
              var step := ConvertOne(files[k], format, options, old(existing), codec);
              && idx == old(idx) && inFlight == old(inFlight)[w := None]
              && pending == (if step.result.ok && options.removeOriginal then old(pending)[w := Some(files[k])] else old(pending))
              && results == old(results) + [step.result]
              && claimOrder == old(claimOrder) + [k]
              && existing == step.existing && warned == old(warned)
      ensures Remaining() < old(Remaining())
    {
      var k := inFlight[w].value;
      var step := ConvertOne(files[k], format, options, existing, codec);
      Push(w, step);
    }

    /**
     * The worker holding files[k] pushes the result of converting it and
     * gives up its claim. The original becomes pending deletion when the
     * conversion succeeded and --rm was given; otherwise the worker is idle
     * again.
     */
    method Push(w: nat, step: ConvertStep)
      requires Valid() && Settled() && w < workers && inFlight[w].Some? && inFlight[w].value < |files|
      requires step == ConvertOne(files[inFlight[w].value], format, options, existing, codec)
      modifies this
      ensures Valid() && Settled()
      ensures idx == old(idx) && inFlight == old(inFlight)[w := None]
      ensures pending == (if step.result.ok && options.removeOriginal then old(pending)[w := Some(step.result.src)] else old(pending))
      ensures results == old(results) + [step.result] && claimOrder == old(claimOrder) + [old(inFlight[w].value)]
      ensures existing == step.existing && warned == old(warned)
      ensures Remaining() < old(Remaining())
    {
      var k := inFlight[w].value;
      var pending' := if step.result.ok && options.removeOriginal then pending[w := Some(files[k])] else pending;
      PushKeepsInvariant(files, format, options, codec, unlinkFails, workers, initial,
                         idx, inFlight, pending, results, existing, warned, claimOrder, w);
      BusyUpdate(inFlight, w, None);
      BusyUpdate(pending, w, Some(files[k]));
      Commit(idx, inFlight[w := None], pending', results + [step.result], step.existing, warned,
             claimOrder + [k]);
    }

    /**
     * A worker with a pending original tries to unlink it up to three times;
     * the original is gone when one attempt succeeds, and warned about when
     * all three fail.
     */
    method Remove(w: nat)
      requires Valid() && Settled() && w < workers && pending[w].Some?
      modifies this
      ensures Valid() && Settled()
      ensures var src := old(pending[w].value);
              && idx == old(idx) && inFlight == old(inFlight) && pending == old(pending)[w := None]
              && results == old(results) && claimOrder == old(claimOrder)
              && existing == (if Deletable(unlinkFails(src)) then old(existing) - {src} else old(existing))
              && warned == (if Deletable(unlinkFails(src)) then old(warned) else old(warned) + [src])
      ensures Remaining() < old(Remaining())
    {
      var src := pending[w].value;
      var attempts, deleted, warn := DeleteWithRetry(unlinkFails(src));
      RemoveKeepsInvariant(files, format, options, codec, unlinkFails, workers, initial,
                           idx, inFlight, pending, results, existing, warned, claimOrder, w, deleted);
      BusyUpdate(pending, w, None);
      Commit(idx, inFlight, pending[w := None], results,
             if deleted then existing - {src} else existing, if deleted then warned else warned + [src],
             claimOrder);
    }

    /** Sets every field at once to values that satisfy the pool's invariant. */
    method Commit(idx': nat, inFlight': seq<Option<nat>>, pending': seq<Option<FilePath>>,
                  results': seq<ConversionResult>, existing': set<FilePath>, warned': seq<FilePath>,
                  ghost claimOrder': seq<nat>)
      requires PoolInvariant(files, format, options, codec, unlinkFails, workers, initial,
                             idx', inFlight', pending', results', existing', warned', claimOrder')
      modifies this
      ensures idx == idx' && inFlight == inFlight' && pending == pending' && results == results'
      ensures existing == existing' && warned == warned' && claimOrder == claimOrder'
      ensures Valid()
    {
      idx, inFlight, pending, results, existing, warned := idx', inFlight', pending', results', existing', warned';
      claimOrder := claimOrder';
    }

    /**
     * Worker w takes its next step: it converts the file it holds, deletes the
     * original it has pending, or, when idle, claims the next file.
     */
    method Step(w: nat)
      requires Valid() && Settled() && w < workers && (inFlight[w].Some? || pending[w].Some? || idx < |files|)
      modifies this
      ensures Valid() && Settled()
      ensures Remaining() < old(Remaining())
    {
      if inFlight[w].Some? {
        Convert(w);
      } else if pending[w].Some? {
        Remove(w);
      } else {
        Claim(w);
      }
    }

    /** The workers step in any interleaving until every file is claimed and every worker is idle again. */
    method Drain()
      requires Valid() && Settled()
      modifies this
      ensures Valid() && Settled()
      ensures idx == |files| && Busy(inFlight) == 0 && Busy(pending) == 0
    {
      while idx < |files| || Busy(inFlight) > 0 || Busy(pending) > 0
        invariant Valid() && Settled()
        decreases Remaining()
      {
        BusyPositive(inFlight);
        BusyPositive(pending);
        var w :| 0 <= w < workers && (inFlight[w].Some? || pending[w].Some? || idx < |files|);
        Step(w);
      }
    }

    /**
     * Runs the workers until every file is claimed and every worker is idle
     * again. Each file then has exactly one result, which is what convertOne
     * returns for it against the paths before the run plus the destinations
     * written by the results pushed before it (for convertOne, the same as
     * the paths that existed when it ran); a
     * destination present before the run is refused without --force; the
     * filesystem is the initial one minus the originals removed plus the
     * destinations written, and the warnings name exactly the originals that
     * could not be removed.
     */
    method Run()
      requires Valid() && Settled() && idx == 0 && results == [] && existing == initial && warned == []
      requires forall w :: 0 <= w < workers ==> Idle(w)
      modifies this
      ensures Valid() && Settled()
      ensures idx == |files| && forall w :: 0 <= w < workers ==> Idle(w)
      ensures |results| == |files| && |claimOrder| == |files|
      ensures forall k :: 0 <= k < |files| ==> k in claimOrder
      ensures forall j :: 0 <= j < |claimOrder| ==> claimOrder[j] < |files|
      ensures forall i, j :: 0 <= i < j < |claimOrder| ==> claimOrder[i] != claimOrder[j]
      ensures forall j :: 0 <= j < |results| ==> results[j].src == files[claimOrder[j]]
      ensures forall j :: 0 <= j < |results| ==>
                && results[j].dest == DestPathFor(results[j].src, format)
                && results[j] == ConvertOne(results[j].src, format, options, initial + WrittenBefore(results, j), codec).result
      ensures forall p :: p in files ==> exists j :: 0 <= j < |results| && results[j].src == p
      ensures RefusedWhenPresent(initial, options.force, results)
      ensures existing == (initial - Removed(results, options.removeOriginal, unlinkFails)) + WrittenDests(results)
      ensures forall q :: q in warned <==> q in Unremoved(results, options.removeOriginal, unlinkFails)
    {
      Drain();
      BusyPositive(inFlight);
      BusyPositive(pending);
      AllClaimsPushed(files, format, options, codec, initial, results, claimOrder, inFlight);
      ResultsAreConversions(files, format, options, codec, initial, results, claimOrder);
      FinalState(initial, existing, results, warned, options.removeOriginal, unlinkFails, pending);
    }
  }
}
