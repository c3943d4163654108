/** The per-item loop that the two sync passes of emote_common.py share
    (emote_common.py:84-113 and 143-172), as a specification: walk the listed
    items in order, keep an item whose file exists, otherwise download and
    write it, count each outcome, and record every item that did not fail. */
module SyncWalk {
  import opened Results
  import opened EmoteStore

  /** `clock(k)` is what the k-th call of `_utc()` in a pass returns. */
  type Clock = nat -> string

  /** Why a pass raises before it returns. */
  datatype SyncError =
    | DirectoryBlocked(path: Path)   // `mkdir` found a file in the way
    | RequestFailed(url: string)     // a listing request or its JSON decoding failed
    | NoTwitchEmoteSet               // `RuntimeError("No 7TV Twitch set")`
    | CredentialsMissing             // `RuntimeError("CLIENT_ID or ACCESS_TOKEN missing")`
    | MissingKey(key: string)        // a `KeyError` outside the per-item `try`
    | SidecarBlocked(path: Path)     // `_save_meta` could not write the sidecar

  /** One listed item, resolved: where its asset goes, which URL downloading
      it requests, what the download (and transcode) yields, and its record
      with the timestamp still to be filled in. */
  datatype Plan = Plan(path: Path, url: string, payload: Option<Bytes>, record: EmoteRecord)

  datatype Fate = Unchanged | Added | Failed

  /** The loop's state: the file system, `meta`, the three counters, the
      URLs requested so far and, for the proofs, each item's fate. */
  datatype Walked = Walked(
    fs: FsState,
    meta: seq<EmoteRecord>,
    added: nat,
    same: nat,
    failed: nat,
    requests: seq<string>,
    fates: seq<Fate>)

  /** What happens to one item given the state of the disk when it is reached. */
  function FateAt(fs: FsState, p: Plan): Fate {
    if fs.Exists(p.path) then Unchanged
    else if p.payload.None? then Failed
    else Added
  }

  function Stamp(p: Plan, t: string): EmoteRecord {
    p.record.(downloadedAt := t)
  }

  /** One iteration of the loop body. */
  function Step(w: Walked, p: Plan, clock: Clock): Walked {
    match FateAt(w.fs, p)
    case Unchanged =>
      w.(same := w.same + 1, meta := w.meta + [Stamp(p, clock(|w.meta|))], fates := w.fates + [Unchanged])
    case Failed =>
      w.(failed := w.failed + 1, requests := w.requests + [p.url], fates := w.fates + [Failed])
    case Added =>
      w.(fs := w.fs.Write(p.path, p.payload.value), added := w.added + 1,
         requests := w.requests + [p.url], meta := w.meta + [Stamp(p, clock(|w.meta|))],
         fates := w.fates + [Added])
  }

  function Start(fs: FsState): Walked {
    Walked(fs, [], 0, 0, 0, [], [])
  }

  /** The whole loop over `plans`, in listing order. */
  function Walk(fs: FsState, plans: seq<Plan>, clock: Clock): Walked {
    if plans == [] then Start(fs)
    else Step(Walk(fs, plans[..|plans| - 1], clock), plans[|plans| - 1], clock)
  }

  lemma WalkAppend(fs: FsState, plans: seq<Plan>, p: Plan, clock: Clock)
    ensures Walk(fs, plans + [p], clock) == Step(Walk(fs, plans, clock), p, clock)
  {
    assert (plans + [p])[..|plans|] == plans;
  }

  lemma PrefixWhole<T>(s: seq<T>, k: nat)
    requires k == |s|
    ensures s[..k] == s
  {
  }

  lemma PrefixOfAppend<T>(a: seq<T>, b: seq<T>)
    ensures |a + b| == |a| + |b| && (a + b)[..|a|] == a
  {
  }

  /** One step appends the item's fate, and keeps whatever existed. */
  lemma StepFacts(w: Walked, p: Plan, clock: Clock)
    ensures var s := Step(w, p, clock);
      s.fates == w.fates + [FateAt(w.fs, p)] &&
      (forall q :: w.fs.Exists(q) ==> s.fs.Exists(q)) &&
      (FateAt(w.fs, p) != Failed ==> s.fs.Exists(p.path))
  {
  }

  /** One step requests the item's URL exactly when its fate fetches it. */
  lemma StepRequests(w: Walked, p: Plan, clock: Clock)
    ensures Step(w, p, clock).requests == w.requests + (if FateAt(w.fs, p) in Fetched then [p.url] else [])
  {
  }

  lemma {:induction false} WalkLength(fs: FsState, plans: seq<Plan>, clock: Clock)
    ensures |Walk(fs, plans, clock).fates| == |plans|
  {
    if plans != [] {
      WalkLength(fs, plans[..|plans| - 1], clock);
    }
  }

  /** What a pass returns: `(meta, added, same, failed)`. */
  datatype Summary = Summary(meta: seq<EmoteRecord>, added: nat, same: nat, failed: nat)

  /** The whole effect of one pass: the disk it leaves, the URLs it requested
      in order, and what it returned or raised. */
  datatype Pass = Pass(fs: FsState, requests: seq<string>, result: Result<Summary, SyncError>)

  /** The end of a pass: `_save_meta(dir, meta)` then `return meta, added, same, failed`. */
  function Finish(w: Walked, dir: Path, sent: seq<string>): Pass {
    match w.fs.SaveMeta(dir, w.meta)
    case Ok(fs) => Pass(fs, sent + w.requests, Ok(Summary(w.meta, w.added, w.same, w.failed)))
    case Err(fs) => Pass(fs, sent + w.requests, Err(SidecarBlocked(SidecarPath(dir))))
  }

  /** A successful finish overwrites the sidecar with exactly this pass's
      records, with no merge, and changes no other file. */
  lemma FinishWritesSidecar(w: Walked, dir: Path, sent: seq<string>)
    requires Finish(w, dir, sent).result.Ok?
    ensures var p := Finish(w, dir, sent);
      p.result.value == Summary(w.meta, w.added, w.same, w.failed) &&
      p.fs.LoadMeta(SidecarPath(dir)) == Ok(w.meta) &&
      p.fs.files == w.fs.files[SidecarPath(dir) := Sidecar(w.meta)] &&
      p.requests == sent + w.requests
  {
  }

  /** However the finish goes, it adds or changes no file but the sidecar. */
  lemma FinishOnlyTouchesSidecar(w: Walked, dir: Path, sent: seq<string>)
    ensures var p := Finish(w, dir, sent);
      forall q :: q in p.fs.files && q != SidecarPath(dir) ==> q in w.fs.files && p.fs.files[q] == w.fs.files[q]
  {
  }

  // ---------------------------------------------------------------- counting

  function Count(fates: seq<Fate>, f: Fate): nat {
    if fates == [] then 0
    else Count(fates[..|fates| - 1], f) + (if fates[|fates| - 1] == f then 1 else 0)
  }

  lemma {:induction false} CountsPartition(fates: seq<Fate>)
    ensures Count(fates, Unchanged) + Count(fates, Added) + Count(fates, Failed) == |fates|
  {
    if fates != [] {
      CountsPartition(fates[..|fates| - 1]);
    }
  }

  /** The ascending indices `i` with `fates[i]` in `which`. */
  function Indices(fates: seq<Fate>, which: set<Fate>): seq<nat> {
    if fates == [] then []
    else Indices(fates[..|fates| - 1], which) + (if fates[|fates| - 1] in which then [|fates| - 1] else [])
  }

  const Kept: set<Fate> := {Unchanged, Added}
  const Fetched: set<Fate> := {Added, Failed}

  /** `Indices` lists exactly the matching positions, each once, in order. */
  lemma {:induction false} IndicesSpec(fates: seq<Fate>, which: set<Fate>)
    ensures forall j :: 0 <= j < |Indices(fates, which)| ==>
              Indices(fates, which)[j] < |fates| && fates[Indices(fates, which)[j]] in which
    ensures forall j, k :: 0 <= j < k < |Indices(fates, which)| ==>
              Indices(fates, which)[j] < Indices(fates, which)[k]
    ensures forall i :: i in Indices(fates, which) <==> 0 <= i < |fates| && fates[i] in which
  {
    if fates != [] {
      var init := fates[..|fates| - 1];
      IndicesSpec(init, which);
      assert forall i :: 0 <= i < |init| ==> init[i] == fates[i];
    }
  }

  /** Two fate sequences with the same pattern of membership select the same indices. */
  lemma {:induction false} IndicesSamePattern(f1: seq<Fate>, f2: seq<Fate>, which: set<Fate>)
    requires |f1| == |f2|
    requires forall i :: 0 <= i < |f1| ==> (f1[i] in which <==> f2[i] in which)
    ensures Indices(f1, which) == Indices(f2, which)
  {
    if f1 != [] {
      IndicesSamePattern(f1[..|f1| - 1], f2[..|f2| - 1], which);
    }
  }

  // ---------------------------------------------------------------- shape of a walk

  /** The counters count the fates; every item gets exactly one fate; only
      non-failed items are recorded and only non-existing ones requested. */
  lemma {:induction false} WalkCounts(fs: FsState, plans: seq<Plan>, clock: Clock)
    ensures var w := Walk(fs, plans, clock);
      |w.fates| == |plans| &&
      w.added == Count(w.fates, Added) && w.same == Count(w.fates, Unchanged) &&
      w.failed == Count(w.fates, Failed) &&
      w.added + w.same + w.failed == |plans| &&
      |w.meta| == w.added + w.same &&
      |w.requests| == w.added + w.failed &&
      w.fs.dirs == fs.dirs
  {
    if plans != [] {
      WalkCounts(fs, plans[..|plans| - 1], clock);
    }
    CountsPartition(Walk(fs, plans, clock).fates);
  }

  /** Item `i`'s fate is decided by the disk as the items before it left it. */
  lemma {:induction false} WalkFates(fs: FsState, plans: seq<Plan>, clock: Clock)
    ensures |Walk(fs, plans, clock).fates| == |plans|
    ensures forall i :: 0 <= i < |plans| ==>
              Walk(fs, plans, clock).fates[i] == FateAt(Walk(fs, plans[..i], clock).fs, plans[i])
  {
    if plans != [] {
      var init := plans[..|plans| - 1];
      var w := Walk(fs, plans, clock);
      var wi := Walk(fs, init, clock);
      WalkFates(fs, init, clock);
      assert w == Step(wi, plans[|plans| - 1], clock);
      assert w.fates == wi.fates + [FateAt(wi.fs, plans[|plans| - 1])];
      forall i | 0 <= i < |plans|
        ensures w.fates[i] == FateAt(Walk(fs, plans[..i], clock).fs, plans[i])
      {
        if i < |init| {
          assert init[..i] == plans[..i];
          assert w.fates[i] == wi.fates[i];
        } else {
          assert plans[..i] == init;
        }
      }
    }
  }

  /** Files already present keep their content, directories are untouched,
      and whatever existed still exists. */
  lemma {:induction false} WalkKeepsExisting(fs: FsState, plans: seq<Plan>, clock: Clock)
    ensures forall p :: p in fs.files ==>
              p in Walk(fs, plans, clock).fs.files && Walk(fs, plans, clock).fs.files[p] == fs.files[p]
    ensures forall p :: fs.Exists(p) ==> Walk(fs, plans, clock).fs.Exists(p)
    ensures Walk(fs, plans, clock).fs.dirs == fs.dirs
  {
    if plans != [] {
      WalkKeepsExisting(fs, plans[..|plans| - 1], clock);
    }
  }

  /** A walk whose items all go elsewhere leaves the sidecar as it was. */
  lemma WalkSparesSidecar(fs: FsState, plans: seq<Plan>, dir: Path, clock: Clock)
    requires forall i :: 0 <= i < |plans| ==> plans[i].path != SidecarPath(dir)
    ensures var g := Walk(fs, plans, clock).fs;
      (SidecarPath(dir) in g.files <==> SidecarPath(dir) in fs.files) &&
      (SidecarPath(dir) in fs.files ==> g.files[SidecarPath(dir)] == fs.files[SidecarPath(dir)])
  {
    WalkKeepsExisting(fs, plans, clock);
    WalkNewFiles(fs, plans, clock);
  }

  /** Every file the walk created holds the download of an added item at that path. */
  lemma {:induction false} WalkNewFiles(fs: FsState, plans: seq<Plan>, clock: Clock)
    ensures var w := Walk(fs, plans, clock);
      forall p :: p in w.fs.files && p !in fs.files ==>
        exists i :: 0 <= i < |plans| && i < |w.fates| && w.fates[i] == Added && plans[i].path == p &&
                    plans[i].payload.Some? && w.fs.files[p] == Blob(plans[i].payload.value)
  {
    if plans != [] {
      var init := plans[..|plans| - 1];
      var last := plans[|plans| - 1];
      var wi := Walk(fs, init, clock);
      var w := Walk(fs, plans, clock);
      WalkNewFiles(fs, init, clock);
      assert w.fates[..|wi.fates|] == wi.fates;
      forall p | p in w.fs.files && p !in fs.files
        ensures exists i :: 0 <= i < |plans| && i < |w.fates| && w.fates[i] == Added && plans[i].path == p &&
                            plans[i].payload.Some? && w.fs.files[p] == Blob(plans[i].payload.value)
      {
        if FateAt(wi.fs, last) == Added && p == last.path {
          assert w.fates[|plans| - 1] == Added by { WalkFates(fs, plans, clock); }
        } else {
          assert p in wi.fs.files && w.fs.files[p] == wi.fs.files[p];
          var i :| 0 <= i < |init| && i < |wi.fates| && wi.fates[i] == Added && init[i].path == p &&
                   init[i].payload.Some? && wi.fs.files[p] == Blob(init[i].payload.value);
          assert w.fates[i] == wi.fates[i] && plans[i] == init[i];
        }
      }
    }
  }

  /** An item fails only when its download fails, and the path of every
      item that did not fail is present after the walk. */
  lemma {:induction false} WalkKeptPresent(fs: FsState, plans: seq<Plan>, clock: Clock)
    ensures |Walk(fs, plans, clock).fates| == |plans|
    ensures forall i :: 0 <= i < |plans| && plans[i].payload.Some? ==> Walk(fs, plans, clock).fates[i] != Failed
    ensures forall i :: 0 <= i < |plans| && Walk(fs, plans, clock).fates[i] != Failed ==>
              Walk(fs, plans, clock).fs.Exists(plans[i].path)
  {
    if plans != [] {
      var init, last := plans[..|plans| - 1], plans[|plans| - 1];
      var wi, w := Walk(fs, init, clock), Walk(fs, plans, clock);
      assert w == Step(wi, last, clock);
      StepFacts(wi, last, clock);
      WalkKeptPresent(fs, init, clock);
      forall i | 0 <= i < |plans|
        ensures plans[i].payload.Some? ==> w.fates[i] != Failed
        ensures w.fates[i] != Failed ==> w.fs.Exists(plans[i].path)
      {
        if i < |init| {
          assert w.fates[i] == wi.fates[i] && plans[i] == init[i];
        }
      }
    }
  }

  /** An item whose path already exists when the pass starts is kept as it is
      and never requested; only paths missing at the start are ever written. */
  lemma ExistingNeverFetched(fs: FsState, plans: seq<Plan>, clock: Clock, i: nat)
    requires i < |plans| && fs.Exists(plans[i].path)
    ensures |Walk(fs, plans, clock).fates| == |plans|
    ensures Walk(fs, plans, clock).fates[i] == Unchanged
    ensures i !in Indices(Walk(fs, plans, clock).fates, Fetched)
  {
    var fates := Walk(fs, plans, clock).fates;
    var before := Walk(fs, plans[..i], clock).fs;
    assert |fates| == |plans| && fates[i] == FateAt(before, plans[i]) by {
      WalkFates(fs, plans, clock);
    }
    assert before.Exists(plans[i].path) by {
      WalkKeepsExisting(fs, plans[..i], clock);
    }
    assert i !in Indices(fates, Fetched) by {
      IndicesSpec(fates, Fetched);
    }
  }

  /** Records of the walk: the stamped records of the non-failed items, in
      listing order, the j-th stamped with the j-th clock reading. */
  lemma {:induction false} WalkMeta(fs: FsState, plans: seq<Plan>, clock: Clock)
    ensures var w := Walk(fs, plans, clock);
      |w.fates| == |plans| &&
      |w.meta| == |Indices(w.fates, Kept)| &&
      forall j :: 0 <= j < |w.meta| ==>
        Indices(w.fates, Kept)[j] < |plans| &&
        w.meta[j] == Stamp(plans[Indices(w.fates, Kept)[j]], clock(j))
  {
    WalkFates(fs, plans, clock);
    if plans != [] {
      var init := plans[..|plans| - 1];
      var last := plans[|plans| - 1];
      var w := Walk(fs, plans, clock);
      var wi := Walk(fs, init, clock);
      var f := FateAt(wi.fs, last);
      assert w.fates == wi.fates + [f] &&
             w.meta == wi.meta + (if f in Kept then [Stamp(last, clock(|wi.meta|))] else []) by {
        assert w == Step(wi, last, clock);
      }
      var ki := Indices(wi.fates, Kept);
      assert |wi.fates| == |init| && |wi.meta| == |ki| &&
             forall j :: 0 <= j < |wi.meta| ==> ki[j] < |init| && wi.meta[j] == Stamp(plans[ki[j]], clock(j)) by {
        WalkMeta(fs, init, clock);
        forall j | 0 <= j < |wi.meta| ensures ki[j] < |init| && wi.meta[j] == Stamp(plans[ki[j]], clock(j)) {
          assert init[ki[j]] == plans[ki[j]];
        }
      }
      KeptExtend(plans, wi.fates, wi.meta, f, w.meta, clock);
    }
  }

  lemma {:induction false} KeptExtend(plans: seq<Plan>, fi: seq<Fate>, mi: seq<EmoteRecord>, f: Fate,
                                       m: seq<EmoteRecord>, clock: Clock)
    requires |plans| > 0 && |fi| == |plans| - 1
    requires |mi| == |Indices(fi, Kept)|
    requires forall j :: 0 <= j < |mi| ==>
               Indices(fi, Kept)[j] < |fi| && mi[j] == Stamp(plans[Indices(fi, Kept)[j]], clock(j))
    requires m == mi + (if f in Kept then [Stamp(plans[|plans| - 1], clock(|mi|))] else [])
    ensures |m| == |Indices(fi + [f], Kept)|
    ensures forall j :: 0 <= j < |m| ==>
              Indices(fi + [f], Kept)[j] < |plans| && m[j] == Stamp(plans[Indices(fi + [f], Kept)[j]], clock(j))
  {
    assert (fi + [f])[..|fi|] == fi;
  }

  /** Requests of the walk: one per item whose path was missing, in listing order. */
  lemma {:induction false} WalkRequests(fs: FsState, plans: seq<Plan>, clock: Clock)
    ensures var w := Walk(fs, plans, clock);
      |w.fates| == |plans| &&
      |w.requests| == |Indices(w.fates, Fetched)| &&
      forall j :: 0 <= j < |w.requests| ==>
        Indices(w.fates, Fetched)[j] < |plans| &&
        w.requests[j] == plans[Indices(w.fates, Fetched)[j]].url
  {
    WalkFates(fs, plans, clock);
    if plans != [] {
      var init := plans[..|plans| - 1];
      var last := plans[|plans| - 1];
      var w := Walk(fs, plans, clock);
      var wi := Walk(fs, init, clock);
      WalkRequests(fs, init, clock);
      var f := FateAt(wi.fs, last);
      assert w == Step(wi, last, clock);
      assert w.fates == wi.fates + [f];
      assert w.fates[..|w.fates| - 1] == wi.fates;
      var ki := Indices(wi.fates, Fetched);
      var k := Indices(w.fates, Fetched);
      assert k == ki + (if f in Fetched then [|init|] else []);
      StepRequests(wi, last, clock);
      forall j | 0 <= j < |w.requests|
        ensures k[j] < |plans| && w.requests[j] == plans[k[j]].url
      {
        if j < |wi.requests| {
          assert k[j] == ki[j] && w.requests[j] == wi.requests[j];
          assert init[ki[j]] == plans[ki[j]];
        }
      }
    }
  }

  /** A finish that succeeds after walking `plans`: every item is counted
      once, one request per fetched item follows the listing requests, and
      the sidecar holds the records of the kept items, in listing order. */
  lemma FinishSucceeded(fs1: FsState, plans: seq<Plan>, dir: Path, sent: seq<string>, clock: Clock, w: Walked, p: Pass)
    requires w == Walk(fs1, plans, clock) && p == Finish(w, dir, sent)
    requires p.result.Ok?
    ensures var s := p.result.value;
      var ks := Indices(w.fates, Kept);
      s.added + s.same + s.failed == |plans| && |s.meta| == s.added + s.same &&
      p.fs.LoadMeta(SidecarPath(dir)) == Ok(s.meta) &&
      p.requests == sent + w.requests && |w.requests| == s.added + s.failed &&
      |ks| == |s.meta| &&
      (forall j, l :: 0 <= j < l < |ks| ==> ks[j] < ks[l]) &&
      (forall j :: 0 <= j < |ks| ==> ks[j] < |plans| && s.meta[j] == Stamp(plans[ks[j]], clock(j)))
  {
    assert |w.fates| == |plans| && w.added + w.same + w.failed == |plans| &&
           |w.meta| == w.added + w.same && |w.requests| == w.added + w.failed by {
      WalkCounts(fs1, plans, clock);
    }
    FinishWritesSidecar(w, dir, sent);
    WalkMeta(fs1, plans, clock);
    IndicesSpec(w.fates, Kept);
  }

  // ---------------------------------------------------------------- a second pass

  /** On a disk where every downloadable item's path is present, a walk writes
      nothing: each item is either kept or fails again. */
  lemma {:induction false} WalkOverFullDisk(g: FsState, plans: seq<Plan>, clock: Clock)
    requires forall i :: 0 <= i < |plans| && plans[i].payload.Some? ==> g.Exists(plans[i].path)
    ensures var w := Walk(g, plans, clock);
      w.fs == g && w.added == 0 && |w.fates| == |plans| &&
      forall i :: 0 <= i < |plans| ==> w.fates[i] == (if g.Exists(plans[i].path) then Unchanged else Failed)
  {
    if plans != [] {
      var init := plans[..|plans| - 1];
      forall i | 0 <= i < |init| ensures init[i] == plans[i] { }
      WalkOverFullDisk(g, init, clock);
    }
  }

  predicate DistinctPaths(plans: seq<Plan>) {
    forall i, j :: 0 <= i < j < |plans| ==> plans[i].path != plans[j].path
  }

  /** Running the same walk twice with the same downloads adds nothing the
      second time and leaves the disk as the first run left it. */
  lemma SecondWalkWritesNothing(fs: FsState, plans: seq<Plan>, c1: Clock, c2: Clock)
    ensures var w1 := Walk(fs, plans, c1);
      var w2 := Walk(w1.fs, plans, c2);
      w2.added == 0 && w2.fs == w1.fs
  {
    var w1 := Walk(fs, plans, c1);
    WalkKeptPresent(fs, plans, c1);
    WalkOverFullDisk(w1.fs, plans, c2);
  }

  lemma FailedNotKept(fates: seq<Fate>, i: nat)
    requires i < |fates| && fates[i] == Failed
    ensures i !in Indices(fates, Kept)
  {
    IndicesSpec(fates, Kept);
    assert Failed !in Kept;
  }

  /** A failed item's path was missing when the pass started. */
  lemma FailedWasMissing(fs: FsState, plans: seq<Plan>, clock: Clock, i: nat)
    requires i < |plans| && i < |Walk(fs, plans, clock).fates| && Walk(fs, plans, clock).fates[i] == Failed
    ensures !fs.Exists(plans[i].path)
  {
    WalkFates(fs, plans, clock);
    WalkKeepsExisting(fs, plans[..i], clock);
  }

  /** A failed item gets no record, and when no other item shares its path
      its file is still missing after the pass, so the next pass retries it. */
  lemma FailedStaysMissing(fs: FsState, plans: seq<Plan>, clock: Clock, i: nat)
    requires DistinctPaths(plans)
    requires i < |plans| && i < |Walk(fs, plans, clock).fates| && Walk(fs, plans, clock).fates[i] == Failed
    ensures !Walk(fs, plans, clock).fs.Exists(plans[i].path)
    ensures i !in Indices(Walk(fs, plans, clock).fates, Kept)
  {
    var w := Walk(fs, plans, clock);
    var p := plans[i].path;
    FailedWasMissing(fs, plans, clock, i);
    assert |w.fates| == |plans| by { WalkFates(fs, plans, clock); }
    assert forall k :: 0 <= k < |plans| && plans[k].path == p ==> w.fates[k] != Added by {
      forall k | 0 <= k < |plans| && plans[k].path == p ensures w.fates[k] != Added {
        assert k == i;
      }
    }
    NotAddedStaysMissing(fs, plans, clock, p);
    FailedNotKept(w.fates, i);
  }

  /** A path missing at the start that no added item has is missing at the end. */
  lemma NotAddedStaysMissing(fs: FsState, plans: seq<Plan>, clock: Clock, p: Path)
    requires !fs.Exists(p)
    requires |Walk(fs, plans, clock).fates| == |plans|
    requires forall k :: 0 <= k < |plans| && plans[k].path == p ==> Walk(fs, plans, clock).fates[k] != Added
    ensures !Walk(fs, plans, clock).fs.Exists(p)
  {
    var w := Walk(fs, plans, clock);
    WalkKeepsExisting(fs, plans, clock);
    WalkNewFiles(fs, plans, clock);
  }

  /** When no two items share a path, the second run also fails exactly the
      items the first run failed and records the same items, so the sidecar
      differs only in `downloaded_at`. */
  lemma SecondWalkSameRecords(fs: FsState, plans: seq<Plan>, c1: Clock, c2: Clock)
    requires DistinctPaths(plans)
    ensures var w1 := Walk(fs, plans, c1);
      var w2 := Walk(w1.fs, plans, c2);
      w2.failed == w1.failed && w2.same == w1.same + w1.added &&
      |w2.meta| == |w1.meta| &&
      forall j :: 0 <= j < |w1.meta| ==> w2.meta[j] == w1.meta[j].(downloadedAt := c2(j))
  {
    WalkAgainOn(fs, plans, c1, c2, Walk(fs, plans, c1).fs);
  }

  /** A second walk on any disk `g` on which the same item paths exist as
      after the first walk: it writes nothing, fails the same items, counts
      every earlier addition as unchanged and records the same items. */
  lemma WalkAgainOn(fs: FsState, plans: seq<Plan>, c1: Clock, c2: Clock, g: FsState)
    requires DistinctPaths(plans)
    requires forall i :: 0 <= i < |plans| ==> (g.Exists(plans[i].path) <==> Walk(fs, plans, c1).fs.Exists(plans[i].path))
    ensures var w1 := Walk(fs, plans, c1);
      var w2 := Walk(g, plans, c2);
      w2.added == 0 && w2.fs == g &&
      w2.failed == w1.failed && w2.same == w1.same + w1.added &&
      |w2.meta| == |w1.meta| &&
      forall j :: 0 <= j < |w1.meta| ==> w2.meta[j] == w1.meta[j].(downloadedAt := c2(j))
  {
    var w1 := Walk(fs, plans, c1);
    var w2 := Walk(g, plans, c2);
    WalkAgainFates(fs, plans, c1, c2, g);
    assert w2.failed == w1.failed && w2.same == w1.same + w1.added by {
      WalkCounts(fs, plans, c1);
      WalkCounts(g, plans, c2);
      FatesCount(w1.fates, w2.fates);
    }
    assert |w2.meta| == |w1.meta| && forall j :: 0 <= j < |w1.meta| ==> w2.meta[j] == w1.meta[j].(downloadedAt := c2(j)) by {
      IndicesSamePattern(w1.fates, w2.fates, Kept);
      WalkMeta(fs, plans, c1);
      WalkMeta(g, plans, c2);
      Restamped(w1.meta, w2.meta, plans, Indices(w1.fates, Kept), c1, c2);
    }
  }

  /** Two stampings of the same records differ only in their timestamps. */
  lemma Restamped(m1: seq<EmoteRecord>, m2: seq<EmoteRecord>, plans: seq<Plan>, kept: seq<nat>, c1: Clock, c2: Clock)
    requires |m1| == |kept| && |m2| == |kept|
    requires forall j :: 0 <= j < |kept| ==>
               kept[j] < |plans| && m1[j] == Stamp(plans[kept[j]], c1(j)) && m2[j] == Stamp(plans[kept[j]], c2(j))
    ensures forall j :: 0 <= j < |m1| ==> m2[j] == m1[j].(downloadedAt := c2(j))
  {
  }

  /** Counting lemma for `SecondWalkSameRecords`: a second run turns every
      added item into an unchanged one and keeps the failures. */
  lemma {:induction false} FatesCount(f1: seq<Fate>, f2: seq<Fate>)
    requires |f1| == |f2|
    requires forall i :: 0 <= i < |f1| ==> f2[i] == (if f1[i] == Failed then Failed else Unchanged)
    ensures Count(f2, Failed) == Count(f1, Failed)
    ensures Count(f2, Unchanged) == Count(f1, Unchanged) + Count(f1, Added)
  {
    if f1 != [] {
      FatesCount(f1[..|f1| - 1], f2[..|f2| - 1]);
    }
  }

  /** The fates of the second walk of `WalkAgainOn`: failures stay failures,
      everything else is found present, and nothing is written. */
  lemma WalkAgainFates(fs: FsState, plans: seq<Plan>, c1: Clock, c2: Clock, g: FsState)
    requires DistinctPaths(plans)
    requires forall i :: 0 <= i < |plans| ==> (g.Exists(plans[i].path) <==> Walk(fs, plans, c1).fs.Exists(plans[i].path))
    ensures var w1 := Walk(fs, plans, c1);
      var w2 := Walk(g, plans, c2);
      |w1.fates| == |plans| && |w2.fates| == |plans| && w2.added == 0 && w2.fs == g &&
      forall i :: 0 <= i < |plans| ==> w2.fates[i] == (if w1.fates[i] == Failed then Failed else Unchanged)
  {
    var w1 := Walk(fs, plans, c1);
    var w2 := Walk(g, plans, c2);
    WalkKeptPresent(fs, plans, c1);
    WalkOverFullDisk(g, plans, c2);
    forall i | 0 <= i < |plans| ensures w2.fates[i] == (if w1.fates[i] == Failed then Failed else Unchanged) {
      if w1.fates[i] == Failed {
        FailedStaysMissing(fs, plans, c1, i);
      }
    }
  }

  /** A pass after a successful pass over the same items, writing to the
      same directory: its save succeeds, it writes no asset, and the sidecar
      lists the same items as before, differing only in `downloaded_at`. */
  lemma FinishAgain(fs1: FsState, plans: seq<Plan>, dir: Path, sent: seq<string>, sent2: seq<string>,
                    c1: Clock, c2: Clock, p1: Pass, w2: Walked, p2: Pass)
    requires p1 == Finish(Walk(fs1, plans, c1), dir, sent) && p1.result.Ok?
    requires DistinctPaths(plans)
    requires forall i :: 0 <= i < |plans| ==> plans[i].path != SidecarPath(dir) && plans[i].path != dir
    requires w2 == Walk(p1.fs, plans, c2) && p2 == Finish(w2, dir, sent2)
    ensures p1.fs.MakeDir(dir) == Some(p1.fs)
    ensures p2.result.Ok? && p2.fs.dirs == p1.fs.dirs &&
            p2.fs.files == p1.fs.files[SidecarPath(dir) := Sidecar(p2.result.value.meta)]
    ensures var s1, s2 := p1.result.value, p2.result.value;
      s2.added == 0 && s2.failed == s1.failed && s2.same == s1.same + s1.added &&
      |s2.meta| == |s1.meta| &&
      forall j :: 0 <= j < |s1.meta| ==> s2.meta[j] == s1.meta[j].(downloadedAt := c2(j))
  {
    var w1 := Walk(fs1, plans, c1);
    var sc := SidecarPath(dir);
    assert sc != dir by { assert |sc| > |dir|; }
    assert w1.fs.SaveMeta(dir, w1.meta).Ok?;
    assert p1.fs.files == w1.fs.files[sc := Sidecar(w1.meta)] && p1.fs.dirs == w1.fs.dirs + {dir};
    assert p1.fs.dirs + {dir} == p1.fs.dirs;
    WalkAgainOn(fs1, plans, c1, c2, p1.fs);
  }
}
