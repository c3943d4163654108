/** `fetch_7tv_emotes` (emote_common.py:64-116): mirror the emote set that a
    7TV user has bound to their Twitch connection. */
module SevenTvSync {
  import opened Results
  import opened EmoteStore
  import opened SyncWalk

  // The parts of the 7TV API's JSON that the pass reads; `None` is a missing key.

  datatype Host = Host(url: Option<string>)

  /** `emo["data"]`; `ownerName` is `owner.display_name`, missing when either key is. */
  datatype EmoteData = EmoteData(
    host: Option<Host>,
    ownerName: Option<string>,
    animated: Option<bool>,
    createdAt: Option<string>,
    tags: Option<seq<string>>)

  datatype Emote = Emote(name: Option<string>, id: Option<string>, data: Option<EmoteData>)

  /** The value of a connection's `emote_set` key: JSON `null` or an object. */
  datatype EmoteSet = NullSet | SetObject(emotes: Option<seq<Emote>>, hasOtherKeys: bool)

  datatype Connection = Connection(platform: Option<string>, emoteSet: Option<EmoteSet>)

  datatype User = User(connections: Option<seq<Connection>>)

  const UserUrl: string := "https://7tv.io/v3/users/" + SevenTvUserId

  /** Python's truth value of the set: `None` and `{}` are false. */
  predicate Truthy(es: EmoteSet) {
    es.SetObject? && (es.emotes.Some? || es.hasOtherKeys)
  }

  predicate IsTwitchWithSet(c: Connection) {
    c.platform == Some("TWITCH") && c.emoteSet.Some?
  }

  /** `next((c["emote_set"] for c in connections if ...), None)` */
  function FirstTwitchSet(cs: seq<Connection>): Option<EmoteSet> {
    if cs == [] then None
    else if IsTwitchWithSet(cs[0]) then cs[0].emoteSet
    else FirstTwitchSet(cs[1..])
  }

  /** The first matching connection decides; later ones are never looked at. */
  lemma {:induction false} FirstTwitchSetSpec(cs: seq<Connection>)
    ensures FirstTwitchSet(cs).None? <==> forall i :: 0 <= i < |cs| ==> !IsTwitchWithSet(cs[i])
    ensures FirstTwitchSet(cs).Some? ==>
              exists i :: 0 <= i < |cs| && IsTwitchWithSet(cs[i]) &&
                          FirstTwitchSet(cs) == cs[i].emoteSet &&
                          forall j :: 0 <= j < i ==> !IsTwitchWithSet(cs[j])
  {
    if cs != [] && !IsTwitchWithSet(cs[0]) {
      FirstTwitchSetSpec(cs[1..]);
      assert forall i :: 1 <= i < |cs| ==> cs[i] == cs[1..][i - 1];
      if FirstTwitchSet(cs).Some? {
        var i :| 0 <= i < |cs[1..]| && IsTwitchWithSet(cs[1..][i]) &&
                 FirstTwitchSet(cs[1..]) == cs[1..][i].emoteSet &&
                 forall j :: 0 <= j < i ==> !IsTwitchWithSet(cs[1..][j]);
        assert forall j :: 0 <= j < i + 1 ==> !IsTwitchWithSet(cs[j]) by {
          forall j | 0 <= j < i + 1 ensures !IsTwitchWithSet(cs[j]) {
            if j > 0 { assert cs[j] == cs[1..][j - 1]; }
          }
        }
      }
    }
  }

  /** The listing of emote_common.py:69-79 and 84: the emotes of the first
      Twitch connection's set, or `RuntimeError("No 7TV Twitch set")`. */
  function ListEmotes(user: User): (r: Result<seq<Emote>, SyncError>)
    ensures r.Err? <==> (FirstTwitchSet(user.connections.GetOr([])).None? ||
                         !Truthy(FirstTwitchSet(user.connections.GetOr([])).value))
    ensures r.Err? ==> r.error == NoTwitchEmoteSet
    ensures r.Ok? ==> r.value == FirstTwitchSet(user.connections.GetOr([])).value.emotes.GetOr([])
  {
    var es := FirstTwitchSet(user.connections.GetOr([]));
    if es.None? || !Truthy(es.value) then Err(NoTwitchEmoteSet)
    else Ok(es.value.emotes.GetOr([]))
  }

  /** The first key the loop body reads that is missing, in the order
      `emo["name"]`, `emo["id"]`, `emo["data"]["host"]["url"]`. */
  function MissingKeyOf(e: Emote): Option<string> {
    if e.name.None? then Some("name")
    else if e.id.None? then Some("id")
    else if e.data.None? then Some("data")
    else if e.data.value.host.None? then Some("host")
    else if e.data.value.host.value.url.None? then Some("url")
    else None
  }

  predicate WellFormed(e: Emote) {
    MissingKeyOf(e).None?
  }

  /** How many items the loop gets through before a `KeyError`. */
  function WellFormedPrefix(es: seq<Emote>): (k: nat)
    ensures k <= |es|
    ensures forall j :: 0 <= j < k ==> WellFormed(es[j])
    ensures k < |es| ==> !WellFormed(es[k])
  {
    if es == [] || !WellFormed(es[0]) then 0
    else 1 + WellFormedPrefix(es[1..])
  }

  function AssetUrl(e: Emote): string
    requires WellFormed(e)
  {
    "https:" + e.data.value.host.value.url.value + "/4x.webp"
  }

  function EmotePath(e: Emote): Path
    requires WellFormed(e)
  {
    AssetPath(Dir7tv, e.id.value, e.name.value)
  }

  /** The record of emote_common.py:101-112, before `downloaded_at` is set. */
  function ToRecord(e: Emote): (r: EmoteRecord)
    requires WellFormed(e)
    ensures r.name == e.name.value && r.id == e.id.value && r.source == "7tv"
    ensures r.path == Some(AssetPath(Dir7tv, e.id.value, e.name.value))
    ensures r.owner == (if e.data.value.ownerName.Some? then e.data.value.ownerName.value else "unknown")
    ensures r.animated == (e.data.value.animated.Some? && e.data.value.animated.value)
    ensures r.createdAt == e.data.value.createdAt
    ensures r.tags == (if e.data.value.tags.Some? then e.data.value.tags.value else [])
    ensures r.downloadedAt == ""
  {
    var d := e.data.value;
    EmoteRecord(e.name.value, e.id.value, "7tv", d.ownerName.GetOr("unknown"), d.animated.GetOr(false),
                d.createdAt, d.tags.GetOr([]), Some(EmotePath(e)), "")
  }

  /** The 7TV asset is written as fetched: the HTTP status is not checked. */
  function PlanOf(e: Emote, fetch: string -> Option<Bytes>): Plan
    requires WellFormed(e)
  {
    Plan(EmotePath(e), AssetUrl(e), fetch(AssetUrl(e)), ToRecord(e))
  }

  function PlansOf(es: seq<Emote>, fetch: string -> Option<Bytes>): (ps: seq<Plan>)
    requires forall j :: 0 <= j < |es| ==> WellFormed(es[j])
    ensures |ps| == |es|
    ensures forall j :: 0 <= j < |es| ==> ps[j] == PlanOf(es[j], fetch)
  {
    seq(|es|, j requires 0 <= j < |es| => PlanOf(es[j], fetch))
  }

  /** No listed emote's asset goes to the sidecar or to the directory itself. */
  lemma PlansAvoidSidecar(es: seq<Emote>, fetch: string -> Option<Bytes>)
    requires forall j :: 0 <= j < |es| ==> WellFormed(es[j])
    ensures forall i :: 0 <= i < |es| ==>
      PlansOf(es, fetch)[i].path != SidecarPath(Dir7tv) && PlansOf(es, fetch)[i].path != Dir7tv
  {
    forall i | 0 <= i < |es| ensures PlansOf(es, fetch)[i].path != SidecarPath(Dir7tv) && PlansOf(es, fetch)[i].path != Dir7tv {
      AssetIsNotSidecar(Dir7tv, es[i].id.value, es[i].name.value, Dir7tv);
    }
  }

  lemma PlansSnoc(es: seq<Emote>, i: nat, plans: seq<Plan>, fetch: string -> Option<Bytes>)
    requires i < |es| && |plans| == i && WellFormed(es[i])
    requires forall j :: 0 <= j < i ==> WellFormed(es[j]) && plans[j] == PlanOf(es[j], fetch)
    ensures forall j :: 0 <= j < i + 1 ==> WellFormed(es[j]) && (plans + [PlanOf(es[i], fetch)])[j] == PlanOf(es[j], fetch)
  {
  }

  /** A sequence that agrees with `PlanOf` on a well-formed prefix is that prefix's plans. */
  lemma PlansOfPrefix(es: seq<Emote>, i: nat, plans: seq<Plan>, fetch: string -> Option<Bytes>)
    requires i <= |es| && |plans| == i
    requires forall j :: 0 <= j < i ==> WellFormed(es[j]) && plans[j] == PlanOf(es[j], fetch)
    ensures PlansOf(es[..i], fetch) == plans
  {
    var ps := PlansOf(es[..i], fetch);
    forall j | 0 <= j < i ensures ps[j] == plans[j] {
      assert es[..i][j] == es[j];
    }
  }

  /** The pass as a function of the disk, the user lookup's answer (`None`
      when the request or its decoding fails), the asset downloads and the clock. */
  function SevenTvPass(fs: FsState, user: Option<User>, fetch: string -> Option<Bytes>, clock: Clock): Pass {
    match fs.MakeDir(Dir7tv)
    case None => Pass(fs, [], Err(DirectoryBlocked(Dir7tv)))
    case Some(fs1) =>
      if user.None? then Pass(fs1, [UserUrl], Err(RequestFailed(UserUrl)))
      else
        match ListEmotes(user.value)
        case Err(e) => Pass(fs1, [UserUrl], Err(e))
        case Ok(emotes) => EmotesPass(fs1, emotes, [UserUrl], fetch, clock)
  }

  /** The part of the pass after the listing (emote_common.py:84-116), given
      the URLs already requested. */
  function EmotesPass(fs1: FsState, emotes: seq<Emote>, sent: seq<string>, fetch: string -> Option<Bytes>, clock: Clock): Pass {
    var k := WellFormedPrefix(emotes);
    var w := Walk(fs1, PlansOf(emotes[..k], fetch), clock);
    if k < |emotes| then Pass(w.fs, sent + w.requests, Err(MissingKey(MissingKeyOf(emotes[k]).value)))
    else Finish(w, Dir7tv, sent)
  }

  /** The loop raises `KeyError` exactly when some listed emote lacks a key
      it reads outside the `try`. It names the first of `name`, `id`, `data`,
      `host` and `url` that the first such emote lacks, and leaves the sidecar
      as it was; `EmotesStopAtMalformed` states that nothing after that emote
      is requested or written. */
  lemma EmotesKeyError(fs1: FsState, emotes: seq<Emote>, sent: seq<string>, fetch: string -> Option<Bytes>, clock: Clock)
    ensures var p := EmotesPass(fs1, emotes, sent, fetch, clock);
      (p.result.Err? && p.result.error.MissingKey?) <==> exists i :: 0 <= i < |emotes| && !WellFormed(emotes[i])
    ensures var p := EmotesPass(fs1, emotes, sent, fetch, clock);
      var k := WellFormedPrefix(emotes);
      k < |emotes| ==>
        var e := emotes[k];
        p.result.Err? && p.result.error.MissingKey? &&
        (e.name.None? ==> p.result.error.key == "name") &&
        (e.name.Some? && e.id.None? ==> p.result.error.key == "id") &&
        (e.name.Some? && e.id.Some? && e.data.None? ==> p.result.error.key == "data") &&
        (e.name.Some? && e.id.Some? && e.data.Some? && e.data.value.host.None? ==> p.result.error.key == "host") &&
        (e.name.Some? && e.id.Some? && e.data.Some? && e.data.value.host.Some? ==>
           e.data.value.host.value.url.None? ==> p.result.error.key == "url") &&
        (SidecarPath(Dir7tv) in p.fs.files <==> SidecarPath(Dir7tv) in fs1.files) &&
        (SidecarPath(Dir7tv) in fs1.files ==> p.fs.files[SidecarPath(Dir7tv)] == fs1.files[SidecarPath(Dir7tv)])
  {
    var k := WellFormedPrefix(emotes);
    var pre := emotes[..k];
    var plans := PlansOf(pre, fetch);
    var w := Walk(fs1, plans, clock);
    if k < |emotes| {
      assert EmotesPass(fs1, emotes, sent, fetch, clock) == Pass(w.fs, sent + w.requests, Err(MissingKey(MissingKeyOf(emotes[k]).value)));
      PlansAvoidSidecar(pre, fetch);
      WalkSparesSidecar(fs1, plans, Dir7tv, clock);
    } else {
      assert EmotesPass(fs1, emotes, sent, fetch, clock) == Finish(w, Dir7tv, sent);
    }
  }

  /** The loop stops at the first malformed emote, however the pass ends:
      after the URLs already sent, every request is the asset URL of an emote
      before it, and every new asset file is the download of such an emote. */
  lemma EmotesStopAtMalformed(fs1: FsState, emotes: seq<Emote>, sent: seq<string>, fetch: string -> Option<Bytes>, clock: Clock)
    ensures var p := EmotesPass(fs1, emotes, sent, fetch, clock);
      var k := WellFormedPrefix(emotes);
      |sent| <= |p.requests| && p.requests[..|sent|] == sent &&
      (forall j :: |sent| <= j < |p.requests| ==> PrefixUrl(emotes, k, p.requests[j])) &&
      (forall q :: q in p.fs.files && q !in fs1.files && q != SidecarPath(Dir7tv) ==>
         exists i :: 0 <= i < k && NewAssetOf(emotes[i], q, p.fs.files[q], fetch))
  {
    var k := WellFormedPrefix(emotes);
    var w := Walk(fs1, PlansOf(emotes[..k], fetch), clock);
    PrefixRequests(fs1, emotes, k, sent, fetch, clock);
    var p := EmotesPass(fs1, emotes, sent, fetch, clock);
    assert p.requests == sent + w.requests;
    PrefixNewFiles(fs1, emotes, k, fetch, clock);
    assert forall q :: q in p.fs.files && q != SidecarPath(Dir7tv) ==> q in w.fs.files && p.fs.files[q] == w.fs.files[q] by {
      if k == |emotes| {
        FinishOnlyTouchesSidecar(w, Dir7tv, sent);
      }
    }
  }

  /** A listing failure raises before any per-item work: no asset and no
      sidecar is written, the user lookup is the only request (none when a
      file blocks the directory), and the error is the blocked directory, the
      failed lookup or the missing Twitch set, in that order. */
  lemma SevenTvListingFailure(fs: FsState, user: Option<User>, fetch: string -> Option<Bytes>, clock: Clock)
    requires user.None? || ListEmotes(user.value).Err?
    ensures var p := SevenTvPass(fs, user, fetch, clock);
      p.result.Err? && p.fs.files == fs.files &&
      p.requests == (if Dir7tv in fs.files then [] else [UserUrl]) &&
      p.result.error == (if Dir7tv in fs.files then DirectoryBlocked(Dir7tv)
                         else if user.None? then RequestFailed(UserUrl)
                         else NoTwitchEmoteSet) &&
      (Dir7tv !in fs.files ==> Dir7tv in p.fs.dirs)
  {
  }

  /** The item loop and the finish change no file but the sidecar. */
  lemma EmotesKeepCachedFiles(fs1: FsState, emotes: seq<Emote>, sent: seq<string>, fetch: string -> Option<Bytes>, clock: Clock)
    ensures var p := EmotesPass(fs1, emotes, sent, fetch, clock);
      forall q :: q in fs1.files && q != SidecarPath(Dir7tv) ==> q in p.fs.files && p.fs.files[q] == fs1.files[q]
  {
    var k := WellFormedPrefix(emotes);
    var plans := PlansOf(emotes[..k], fetch);
    WalkKeepsExisting(fs1, plans, clock);
    if k == |emotes| {
      FinishOnlyTouchesSidecar(Walk(fs1, plans, clock), Dir7tv, sent);
    }
  }

  /** A pass never changes a cached file other than the sidecar, however it ends. */
  lemma SevenTvKeepsCachedFiles(fs: FsState, user: Option<User>, fetch: string -> Option<Bytes>, clock: Clock)
    ensures var p := SevenTvPass(fs, user, fetch, clock);
      forall q :: q in fs.files && q != SidecarPath(Dir7tv) ==> q in p.fs.files && p.fs.files[q] == fs.files[q]
  {
    if fs.MakeDir(Dir7tv).Some? && user.Some? && ListEmotes(user.value).Ok? {
      EmotesKeepCachedFiles(fs.MakeDir(Dir7tv).value, ListEmotes(user.value).value, [UserUrl], fetch, clock);
    }
  }

  /** `c`, found at `q`, is the download of `e`'s asset at `e`'s path. */
  predicate NewAssetOf(e: Emote, q: Path, c: FileContent, fetch: string -> Option<Bytes>) {
    WellFormed(e) && EmotePath(e) == q && c.Blob? && fetch(AssetUrl(e)) == Some(c.bytes)
  }

  /** Every asset file the item loop creates holds the download of one of the
      listed emotes, at that emote's path. */
  lemma EmotesNewFiles(fs1: FsState, emotes: seq<Emote>, sent: seq<string>, fetch: string -> Option<Bytes>, clock: Clock)
    ensures var p := EmotesPass(fs1, emotes, sent, fetch, clock);
      forall q :: q in p.fs.files && q !in fs1.files && q != SidecarPath(Dir7tv) ==>
        exists i :: 0 <= i < |emotes| && NewAssetOf(emotes[i], q, p.fs.files[q], fetch)
  {
    var p := EmotesPass(fs1, emotes, sent, fetch, clock);
    var k := WellFormedPrefix(emotes);
    var w := Walk(fs1, PlansOf(emotes[..k], fetch), clock);
    PrefixNewFiles(fs1, emotes, k, fetch, clock);
    assert forall q :: q in p.fs.files && q != SidecarPath(Dir7tv) ==> q in w.fs.files && p.fs.files[q] == w.fs.files[q] by {
      if k == |emotes| {
        FinishOnlyTouchesSidecar(w, Dir7tv, sent);
      }
    }
  }

  /** Every file the loop over a well-formed prefix created is the asset of
      one of the first `k` emotes. */
  lemma PrefixNewFiles(fs1: FsState, es: seq<Emote>, k: nat, fetch: string -> Option<Bytes>, clock: Clock)
    requires k <= |es| && forall j :: 0 <= j < k ==> WellFormed(es[j])
    ensures var w := Walk(fs1, PlansOf(es[..k], fetch), clock);
      forall q :: q in w.fs.files && q !in fs1.files ==>
        exists i :: 0 <= i < k && NewAssetOf(es[i], q, w.fs.files[q], fetch)
  {
    var plans := PlansOf(es[..k], fetch);
    var w := Walk(fs1, plans, clock);
    WalkNewFiles(fs1, plans, clock);
    forall q | q in w.fs.files && q !in fs1.files
      ensures exists i :: 0 <= i < k && NewAssetOf(es[i], q, w.fs.files[q], fetch)
    {
      var i :| 0 <= i < |plans| && i < |w.fates| && w.fates[i] == Added && plans[i].path == q &&
               plans[i].payload.Some? && w.fs.files[q] == Blob(plans[i].payload.value);
      PrefixPlanGivesAsset(es, k, i, q, w.fs.files[q], fetch);
    }
  }

  /** `u` is the asset URL of one of the first `k` emotes. */
  predicate PrefixUrl(es: seq<Emote>, k: nat, u: string) {
    exists i :: 0 <= i < k && i < |es| && WellFormed(es[i]) && u == AssetUrl(es[i])
  }

  /** Every request the loop over a well-formed prefix adds after `sent` is
      the asset URL of one of the first `k` emotes. */
  lemma PrefixRequests(fs1: FsState, es: seq<Emote>, k: nat, sent: seq<string>, fetch: string -> Option<Bytes>, clock: Clock)
    requires k <= |es| && forall j :: 0 <= j < k ==> WellFormed(es[j])
    ensures var w := Walk(fs1, PlansOf(es[..k], fetch), clock);
      (sent + w.requests)[..|sent|] == sent &&
      forall j :: |sent| <= j < |sent + w.requests| ==> PrefixUrl(es, k, (sent + w.requests)[j])
  {
    var plans := PlansOf(es[..k], fetch);
    var w := Walk(fs1, plans, clock);
    WalkRequests(fs1, plans, clock);
    assert (sent + w.requests)[..|sent|] == sent;
    forall j | |sent| <= j < |sent + w.requests|
      ensures PrefixUrl(es, k, (sent + w.requests)[j])
    {
      var i := Indices(w.fates, Fetched)[j - |sent|];
      assert (sent + w.requests)[j] == w.requests[j - |sent|];
      assert es[..k][i] == es[i];
      assert w.requests[j - |sent|] == AssetUrl(es[i]);
    }
  }

  /** A written plan of the well-formed prefix is that emote's asset. */
  lemma PrefixPlanGivesAsset(es: seq<Emote>, k: nat, i: nat, q: Path, c: FileContent, fetch: string -> Option<Bytes>)
    requires i < k <= |es| && forall j :: 0 <= j < k ==> WellFormed(es[j])
    requires PlansOf(es[..k], fetch)[i].path == q && PlansOf(es[..k], fetch)[i].payload.Some? &&
             c == Blob(PlansOf(es[..k], fetch)[i].payload.value)
    ensures NewAssetOf(es[i], q, c, fetch)
  {
    assert es[..k][i] == es[i];
    PlanGivesAsset(es[i], PlansOf(es[..k], fetch)[i], q, c, fetch);
  }

  lemma PlanGivesAsset(e: Emote, plan: Plan, q: Path, c: FileContent, fetch: string -> Option<Bytes>)
    requires WellFormed(e) && plan == PlanOf(e, fetch)
    requires plan.path == q && plan.payload.Some? && c == Blob(plan.payload.value)
    ensures NewAssetOf(e, q, c, fetch)
  {
  }

  /** Every asset file a pass creates holds the download of a listed emote
      whose path it is, however the pass ends. */
  lemma SevenTvNewFilesAreDownloads(fs: FsState, user: Option<User>, fetch: string -> Option<Bytes>, clock: Clock)
    ensures var p := SevenTvPass(fs, user, fetch, clock);
      forall q :: q in p.fs.files && q !in fs.files && q != SidecarPath(Dir7tv) ==>
        user.Some? && ListEmotes(user.value).Ok? &&
        exists i :: 0 <= i < |ListEmotes(user.value).value| &&
          NewAssetOf(ListEmotes(user.value).value[i], q, p.fs.files[q], fetch)
  {
    if fs.MakeDir(Dir7tv).Some? && user.Some? && ListEmotes(user.value).Ok? {
      EmotesNewFiles(fs.MakeDir(Dir7tv).value, ListEmotes(user.value).value, [UserUrl], fetch, clock);
    }
  }

  /** A pass that returns got through the whole listing and finished. */
  lemma SevenTvPassFinishes(fs: FsState, user: Option<User>, fetch: string -> Option<Bytes>, clock: Clock)
    requires SevenTvPass(fs, user, fetch, clock).result.Ok?
    ensures fs.MakeDir(Dir7tv).Some? && user.Some? && ListEmotes(user.value).Ok?
    ensures forall j :: 0 <= j < |ListEmotes(user.value).value| ==> WellFormed(ListEmotes(user.value).value[j])
    ensures SevenTvPass(fs, user, fetch, clock) ==
            Finish(Walk(fs.MakeDir(Dir7tv).value, PlansOf(ListEmotes(user.value).value, fetch), clock), Dir7tv, [UserUrl])
  {
    var emotes := ListEmotes(user.value).value;
    PrefixWhole(emotes, WellFormedPrefix(emotes));
  }

  /** `meta[j]` is the record of `emotes[ks[j]]`, stamped with the j-th clock
      reading, for ascending indices `ks`. */
  ghost predicate RecordsAt(meta: seq<EmoteRecord>, emotes: seq<Emote>, ks: seq<nat>, clock: Clock) {
    |ks| == |meta| &&
    (forall j, l :: 0 <= j < l < |ks| ==> ks[j] < ks[l]) &&
    (forall j :: 0 <= j < |ks| ==>
       ks[j] < |emotes| && WellFormed(emotes[ks[j]]) &&
       meta[j] == ToRecord(emotes[ks[j]]).(downloadedAt := clock(j)))
  }

  /** A successful finish after walking the whole listing accounts for every
      item once, follows the earlier requests with one per fetched item, and
      leaves the records of the kept items, in order, in the sidecar. */
  lemma EmotesSucceeded(fs1: FsState, emotes: seq<Emote>, sent: seq<string>, fetch: string -> Option<Bytes>, clock: Clock, p: Pass)
    requires forall j :: 0 <= j < |emotes| ==> WellFormed(emotes[j])
    requires p == Finish(Walk(fs1, PlansOf(emotes, fetch), clock), Dir7tv, sent)
    requires p.result.Ok?
    ensures var s := p.result.value;
      |p.requests| == |sent| + s.added + s.failed && p.requests[..|sent|] == sent &&
      s.added + s.same + s.failed == |emotes| &&
      |s.meta| == s.added + s.same &&
      p.fs.LoadMeta(SidecarPath(Dir7tv)) == Ok(s.meta) &&
      RecordsAt(s.meta, emotes, Indices(Walk(fs1, PlansOf(emotes, fetch), clock).fates, Kept), clock)
  {
    var plans := PlansOf(emotes, fetch);
    var w := Walk(fs1, plans, clock);
    var s := p.result.value;
    FinishSucceeded(fs1, plans, Dir7tv, sent, clock, w, p);
    PrefixOfAppend(sent, w.requests);
    StampsAreRecords(emotes, plans, s.meta, Indices(w.fates, Kept), fetch, clock);
  }

  /** Stamped plans of well-formed emotes are their stamped records. */
  lemma StampsAreRecords(emotes: seq<Emote>, plans: seq<Plan>, meta: seq<EmoteRecord>, ks: seq<nat>,
                         fetch: string -> Option<Bytes>, clock: Clock)
    requires forall j :: 0 <= j < |emotes| ==> WellFormed(emotes[j])
    requires |plans| == |emotes| && forall j :: 0 <= j < |emotes| ==> plans[j] == PlanOf(emotes[j], fetch)
    requires |ks| == |meta| && forall j :: 0 <= j < |ks| ==> ks[j] < |plans| && meta[j] == Stamp(plans[ks[j]], clock(j))
    requires forall j, l :: 0 <= j < l < |ks| ==> ks[j] < ks[l]
    ensures RecordsAt(meta, emotes, ks, clock)
  {
    assert forall j :: 0 <= j < |ks| ==>
      ks[j] < |emotes| && WellFormed(emotes[ks[j]]) && meta[j] == ToRecord(emotes[ks[j]]).(downloadedAt := clock(j));
    assert RecordsAt(meta, emotes, ks, clock);
  }

  /** A successful pass requested the user first, accounts for every listed
      emote exactly once, records the non-failed ones in listing order with
      their `7tv` records and asset paths, and leaves exactly those records in
      the sidecar. */
  lemma SevenTvPassSucceeded(fs: FsState, user: Option<User>, fetch: string -> Option<Bytes>, clock: Clock)
    requires SevenTvPass(fs, user, fetch, clock).result.Ok?
    ensures user.Some? && ListEmotes(user.value).Ok?
    ensures var emotes := ListEmotes(user.value).value;
      var p := SevenTvPass(fs, user, fetch, clock);
      var s := p.result.value;
      (forall j :: 0 <= j < |emotes| ==> WellFormed(emotes[j])) &&
      |p.requests| == 1 + s.added + s.failed && p.requests[..1] == [UserUrl] &&
      s.added + s.same + s.failed == |emotes| &&
      |s.meta| == s.added + s.same &&
      p.fs.LoadMeta(SidecarPath(Dir7tv)) == Ok(s.meta) &&
      RecordsAt(s.meta, emotes, Indices(Walk(fs.MakeDir(Dir7tv).value, PlansOf(emotes, fetch), clock).fates, Kept), clock)
  {
    SevenTvPassFinishes(fs, user, fetch, clock);
    EmotesSucceeded(fs.MakeDir(Dir7tv).value, ListEmotes(user.value).value, [UserUrl], fetch, clock,
                    SevenTvPass(fs, user, fetch, clock));
  }

  /** No two well-formed listed emotes share an asset path. */
  predicate DistinctEmotePaths(es: seq<Emote>) {
    forall i, j :: 0 <= i < j < |es| && WellFormed(es[i]) && WellFormed(es[j]) ==> EmotePath(es[i]) != EmotePath(es[j])
  }

  /** The item loop and save run again over the disk a successful run left. */
  lemma EmotesPassAgain(fs1: FsState, emotes: seq<Emote>, sent: seq<string>, fetch: string -> Option<Bytes>,
                        c1: Clock, c2: Clock, p1: Pass, p2: Pass)
    requires (forall j :: 0 <= j < |emotes| ==> WellFormed(emotes[j])) && DistinctEmotePaths(emotes)
    requires p1 == Finish(Walk(fs1, PlansOf(emotes, fetch), c1), Dir7tv, sent) && p1.result.Ok?
    requires p2 == EmotesPass(p1.fs, emotes, sent, fetch, c2)
    ensures p1.fs.MakeDir(Dir7tv) == Some(p1.fs)
    ensures p2.result.Ok? && p2.fs.dirs == p1.fs.dirs &&
            p2.fs.files == p1.fs.files[SidecarPath(Dir7tv) := Sidecar(p2.result.value.meta)]
    ensures var s1, s2 := p1.result.value, p2.result.value;
      s2.added == 0 && s2.failed == s1.failed && s2.same == s1.same + s1.added &&
      |s2.meta| == |s1.meta| &&
      forall j :: 0 <= j < |s1.meta| ==> s2.meta[j] == s1.meta[j].(downloadedAt := c2(j))
  {
    var plans := PlansOf(emotes, fetch);
    PrefixWhole(emotes, WellFormedPrefix(emotes));
    PlansAvoidSidecar(emotes, fetch);
    FinishAgain(fs1, plans, Dir7tv, sent, sent, c1, c2, p1, Walk(p1.fs, plans, c2), p2);
  }

  /** Running the pass a second time with the same answers from 7TV, when no
      two listed emotes share an asset path: it succeeds, writes no asset and
      changes no directory, and its sidecar lists the same emotes as the first
      run's, fails the same ones, counts every earlier download as unchanged,
      and differs only in `downloaded_at`. */
  lemma SevenTvPassAgain(fs: FsState, user: Option<User>, fetch: string -> Option<Bytes>, c1: Clock, c2: Clock)
    requires SevenTvPass(fs, user, fetch, c1).result.Ok?
    requires user.Some? && ListEmotes(user.value).Ok? && DistinctEmotePaths(ListEmotes(user.value).value)
    ensures var p1 := SevenTvPass(fs, user, fetch, c1);
      var p2 := SevenTvPass(p1.fs, user, fetch, c2);
      p2.result.Ok? && p2.fs.dirs == p1.fs.dirs &&
      p2.fs.files == p1.fs.files[SidecarPath(Dir7tv) := Sidecar(p2.result.value.meta)] &&
      var s1, s2 := p1.result.value, p2.result.value;
      s2.added == 0 && s2.failed == s1.failed && s2.same == s1.same + s1.added &&
      |s2.meta| == |s1.meta| &&
      forall j :: 0 <= j < |s1.meta| ==> s2.meta[j] == s1.meta[j].(downloadedAt := c2(j))
  {
    SevenTvPassFinishes(fs, user, fetch, c1);
    var p1 := SevenTvPass(fs, user, fetch, c1);
    var emotes := ListEmotes(user.value).value;
    EmotesPassAgain(fs.MakeDir(Dir7tv).value, emotes, [UserUrl], fetch, c1, c2, p1,
                    EmotesPass(p1.fs, emotes, [UserUrl], fetch, c2));
  }

  /** `fetch_7tv_emotes()`, updating `disk` in place. */
  method FetchSevenTvEmotes(disk: Disk, user: Option<User>, fetch: string -> Option<Bytes>, clock: Clock)
    returns (result: Result<Summary, SyncError>, requests: seq<string>)
    modifies disk
    ensures Pass(disk.State(), requests, result) == SevenTvPass(old(disk.State()), user, fetch, clock)
  {
    var made := disk.MakeDirs(Dir7tv);
    if !made {
      return Err(DirectoryBlocked(Dir7tv)), [];
    }
    requests := [UserUrl];
    if user.None? {
      return Err(RequestFailed(UserUrl)), requests;
    }
    var listing := ListEmotes(user.value);
    if listing.Err? {
      return Err(listing.error), requests;
    }
    result, requests := SyncEmotes(disk, listing.value, requests, fetch, clock);
  }

  /** One pass of the loop body (emote_common.py:85-113) for an emote that
      has its keys: a present file is counted as unchanged, otherwise the
      asset is downloaded; a failed download is counted and gets no record. */
  method SyncEmote(disk: Disk, emo: Emote, fetch: string -> Option<Bytes>, clock: Clock, ghost w: Walked,
                   meta: seq<EmoteRecord>, added: nat, same: nat, failed: nat, fetched: seq<string>)
    returns (meta': seq<EmoteRecord>, added': nat, same': nat, failed': nat, fetched': seq<string>)
    requires WellFormed(emo)
    requires disk.State() == w.fs && meta == w.meta && fetched == w.requests &&
             added == w.added && same == w.same && failed == w.failed
    modifies disk
    ensures var s := Step(w, PlanOf(emo, fetch), clock);
      disk.State() == s.fs && meta' == s.meta && fetched' == s.requests &&
      added' == s.added && same' == s.same && failed' == s.failed
  {
    meta', added', same', failed', fetched' := meta, added, same, failed, fetched;
    var url := AssetUrl(emo);
    var fp := AssetPath(Dir7tv, emo.id.value, emo.name.value);
    var present := disk.Exists(fp);
    if present {
      same' := same + 1;
    } else {
      fetched' := fetched + [url];
      var body := fetch(url);
      if body.None? {
        failed' := failed + 1;
        return;
      }
      disk.WriteBytes(fp, body.value);
      added' := added + 1;
    }
    meta' := meta + [ToRecord(emo).(downloadedAt := clock(|meta|))];
  }

  /** The loop of `fetch_7tv_emotes` and the final `_save_meta`. */
  method SyncEmotes(disk: Disk, emotes: seq<Emote>, sent: seq<string>, fetch: string -> Option<Bytes>, clock: Clock)
    returns (result: Result<Summary, SyncError>, requests: seq<string>)
    modifies disk
    ensures Pass(disk.State(), requests, result) == EmotesPass(old(disk.State()), emotes, sent, fetch, clock)
  {
    var fetched: seq<string> := [];
    ghost var fs1 := disk.State();
    ghost var plans: seq<Plan> := [];
    ghost var w := Start(fs1);
    var added, same, failed := 0, 0, 0;
    var meta: seq<EmoteRecord> := [];
    var i := 0;
    while i < |emotes|
      invariant 0 <= i <= |emotes| && |plans| == i
      invariant forall j :: 0 <= j < i ==> WellFormed(emotes[j]) && plans[j] == PlanOf(emotes[j], fetch)
      invariant w == Walk(fs1, plans, clock)
      invariant disk.State() == w.fs && meta == w.meta && fetched == w.requests &&
        added == w.added && same == w.same && failed == w.failed
    {
      var emo := emotes[i];
      var missing := MissingKeyOf(emo);
      if missing.Some? {
        assert WellFormedPrefix(emotes) == i;
        PlansOfPrefix(emotes, i, plans, fetch);
        return Err(MissingKey(missing.value)), sent + fetched;
      }
      ghost var plan := PlanOf(emo, fetch);
      WalkAppend(fs1, plans, plan, clock);
      PlansSnoc(emotes, i, plans, fetch);
      plans := plans + [plan];
      meta, added, same, failed, fetched := SyncEmote(disk, emo, fetch, clock, w, meta, added, same, failed, fetched);
      w := Step(w, plan, clock);
      i := i + 1;
    }
    assert WellFormedPrefix(emotes) == |emotes|;
    requests := sent + fetched;
    PlansOfPrefix(emotes, i, plans, fetch);
    var saved := disk.SaveMeta(Dir7tv, meta);
    if saved {
      result := Ok(Summary(meta, added, same, failed));
    } else {
      result := Err(SidecarBlocked(SidecarPath(Dir7tv)));
    }
  }
}
