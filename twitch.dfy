/** `_helix` and `fetch_twitch_emotes` (emote_common.py:119-175): mirror the
    global Twitch emotes and the broadcaster's channel emotes, transcoding
    each PNG to WebP. */
module TwitchSync {
  import opened Results
  import opened EmoteStore
  import opened SyncWalk

  /** `CLIENT_ID` and `ACCESS_TOKEN` as the module leaves them at import time. */
  datatype Credentials = Credentials(clientId: Option<string>, accessToken: Option<string>)

  /** Python's truth value of an optional string: `None` and `""` are false. */
  predicate Truthy(s: Option<string>) {
    s.Some? && s.value != ""
  }

  predicate HasCredentials(c: Credentials) {
    Truthy(c.clientId) && Truthy(c.accessToken)
  }

  // The parts of the Helix JSON that the pass reads; `None` is a missing key.

  datatype TwitchEmote = TwitchEmote(name: Option<string>, id: Option<string>)

  datatype HelixBody = HelixBody(data: Option<seq<TwitchEmote>>)

  const HelixBase: string := "https://api.twitch.tv/helix/"
  const GlobalUrl: string := HelixBase + "chat/emotes/global"
  const ChannelUrl: string := HelixBase + "chat/emotes?broadcaster_id=" + BroadcasterId

  /** The URLs one `_helix` call requests: none when the credentials are missing. */
  function HelixSent(creds: Credentials, url: string): seq<string> {
    if HasCredentials(creds) then [url] else []
  }

  /** `_helix(endpoint)["data"]`. The oracle `helix` answers `None` when the
      request fails, its status is an error (`raise_for_status`) or its body
      is not JSON. */
  function HelixData(creds: Credentials, url: string, helix: string -> Option<HelixBody>): (r: Result<seq<TwitchEmote>, SyncError>)
    ensures !HasCredentials(creds) ==> r == Err(CredentialsMissing)
    ensures r.Ok? <==> HasCredentials(creds) && helix(url).Some? && helix(url).value.data.Some?
    ensures r.Ok? ==> r.value == helix(url).value.data.value
    ensures HasCredentials(creds) && helix(url).None? ==> r == Err(RequestFailed(url))
    ensures HasCredentials(creds) && helix(url).Some? && helix(url).value.data.None? ==> r == Err(MissingKey("data"))
  {
    if !HasCredentials(creds) then Err(CredentialsMissing)
    else match helix(url)
      case None => Err(RequestFailed(url))
      case Some(body) =>
        match body.data
        case None => Err(MissingKey("data"))
        case Some(es) => Ok(es)
  }

  /** The listing requests of a pass and what they yield. */
  datatype Listing = Listing(sent: seq<string>, result: Result<seq<TwitchEmote>, SyncError>)

  /** emote_common.py:136-138: the global list followed by the channel list;
      the channel is asked only after the global list arrived. */
  function TwitchListing(creds: Credentials, helix: string -> Option<HelixBody>): Listing {
    match HelixData(creds, GlobalUrl, helix)
    case Err(e) => Listing(HelixSent(creds, GlobalUrl), Err(e))
    case Ok(glb) =>
      match HelixData(creds, ChannelUrl, helix)
      case Err(e) => Listing([GlobalUrl] + HelixSent(creds, ChannelUrl), Err(e))
      case Ok(chn) => Listing([GlobalUrl, ChannelUrl], Ok(glb + chn))
  }

  /** The listing succeeds exactly when both calls do, and is then the global
      emotes followed by the channel emotes; without credentials nothing is
      requested; a failed global call stops before the channel is asked; the
      URLs requested are always a prefix of the global URL then the channel URL. */
  lemma TwitchListingSpec(creds: Credentials, helix: string -> Option<HelixBody>)
    ensures var l := TwitchListing(creds, helix);
      (!HasCredentials(creds) ==> l == Listing([], Err(CredentialsMissing))) &&
      (l.result.Ok? <==> HelixData(creds, GlobalUrl, helix).Ok? && HelixData(creds, ChannelUrl, helix).Ok?) &&
      (l.result.Ok? ==>
         l.sent == [GlobalUrl, ChannelUrl] &&
         l.result.value == HelixData(creds, GlobalUrl, helix).value + HelixData(creds, ChannelUrl, helix).value) &&
      (HelixData(creds, GlobalUrl, helix).Err? ==> l.result == HelixData(creds, GlobalUrl, helix) && l.sent == HelixSent(creds, GlobalUrl)) &&
      |l.sent| <= 2 && l.sent == [GlobalUrl, ChannelUrl][..|l.sent|]
  {
  }

  /** The first key the loop body reads that is missing: `e["name"]`, then `e["id"]`. */
  function MissingKeyOf(e: TwitchEmote): Option<string> {
    if e.name.None? then Some("name")
    else if e.id.None? then Some("id")
    else None
  }

  predicate WellFormed(e: TwitchEmote) {
    MissingKeyOf(e).None?
  }

  /** How many items the loop gets through before a `KeyError`. */
  function WellFormedPrefix(es: seq<TwitchEmote>): (k: nat)
    ensures k <= |es|
    ensures forall j :: 0 <= j < k ==> WellFormed(es[j])
    ensures k < |es| ==> !WellFormed(es[k])
  {
    if es == [] || !WellFormed(es[0]) then 0
    else 1 + WellFormedPrefix(es[1..])
  }

  /** `png_url(eid)` */
  function PngUrl(eid: string): string {
    "https://static-cdn.jtvnw.net/emoticons/v2/" + eid + "/default/dark/3.0"
  }

  function EmotePath(e: TwitchEmote): Path
    requires WellFormed(e)
  {
    AssetPath(DirTwitch, e.id.value, e.name.value)
  }

  /** The record of emote_common.py:160-171, before `downloaded_at` is set. */
  function ToRecord(e: TwitchEmote): (r: EmoteRecord)
    requires WellFormed(e)
    ensures r.name == e.name.value && r.id == e.id.value
    ensures r.source == "official" && r.owner == "Twitch" && !r.animated
    ensures r.createdAt.None? && r.tags == []
    ensures r.path == Some(AssetPath(DirTwitch, e.id.value, e.name.value))
  {
    EmoteRecord(e.name.value, e.id.value, "official", "Twitch", false, None, [], Some(EmotePath(e)), "")
  }

  /** What is written for a missing asset: the PNG download converted by
      `transcode` (PIL's open, RGBA conversion and WebP save). Either step
      failing fails the item; the HTTP status is not checked. */
  function Payload(e: TwitchEmote, fetch: string -> Option<Bytes>, transcode: Bytes -> Option<Bytes>): Option<Bytes>
    requires WellFormed(e)
  {
    match fetch(PngUrl(e.id.value))
    case None => None
    case Some(png) => transcode(png)
  }

  function PlanOf(e: TwitchEmote, fetch: string -> Option<Bytes>, transcode: Bytes -> Option<Bytes>): Plan
    requires WellFormed(e)
  {
    Plan(EmotePath(e), PngUrl(e.id.value), Payload(e, fetch, transcode), ToRecord(e))
  }

  function PlansOf(es: seq<TwitchEmote>, fetch: string -> Option<Bytes>, transcode: Bytes -> Option<Bytes>): (ps: seq<Plan>)
    requires forall j :: 0 <= j < |es| ==> WellFormed(es[j])
    ensures |ps| == |es|
    ensures forall j :: 0 <= j < |es| ==> ps[j] == PlanOf(es[j], fetch, transcode)
  {
    seq(|es|, j requires 0 <= j < |es| => PlanOf(es[j], fetch, transcode))
  }

  /** No listed emote's asset goes to the sidecar or to the directory itself. */
  lemma PlansAvoidSidecar(es: seq<TwitchEmote>, fetch: string -> Option<Bytes>, transcode: Bytes -> Option<Bytes>)
    requires forall j :: 0 <= j < |es| ==> WellFormed(es[j])
    ensures forall i :: 0 <= i < |es| ==>
      PlansOf(es, fetch, transcode)[i].path != SidecarPath(DirTwitch) && PlansOf(es, fetch, transcode)[i].path != DirTwitch
  {
    forall i | 0 <= i < |es| ensures PlansOf(es, fetch, transcode)[i].path != SidecarPath(DirTwitch) && PlansOf(es, fetch, transcode)[i].path != DirTwitch {
      AssetIsNotSidecar(DirTwitch, es[i].id.value, es[i].name.value, DirTwitch);
    }
  }

  lemma PlansSnoc(es: seq<TwitchEmote>, i: nat, plans: seq<Plan>, fetch: string -> Option<Bytes>, transcode: Bytes -> Option<Bytes>)
    requires i < |es| && |plans| == i && WellFormed(es[i])
    requires forall j :: 0 <= j < i ==> WellFormed(es[j]) && plans[j] == PlanOf(es[j], fetch, transcode)
    ensures forall j :: 0 <= j < i + 1 ==>
              WellFormed(es[j]) && (plans + [PlanOf(es[i], fetch, transcode)])[j] == PlanOf(es[j], fetch, transcode)
  {
  }

  /** A sequence that agrees with `PlanOf` on a well-formed prefix is that prefix's plans. */
  lemma PlansOfPrefix(es: seq<TwitchEmote>, i: nat, plans: seq<Plan>, fetch: string -> Option<Bytes>, transcode: Bytes -> Option<Bytes>)
    requires i <= |es| && |plans| == i
    requires forall j :: 0 <= j < i ==> WellFormed(es[j]) && plans[j] == PlanOf(es[j], fetch, transcode)
    ensures PlansOf(es[..i], fetch, transcode) == plans
  {
    var ps := PlansOf(es[..i], fetch, transcode);
    forall j | 0 <= j < i ensures ps[j] == plans[j] {
      assert es[..i][j] == es[j];
    }
  }

  /** The pass as a function of the disk, the credentials, the Helix answers,
      the PNG downloads, the transcoder and the clock. */
  function TwitchPass(fs: FsState, creds: Credentials, helix: string -> Option<HelixBody>,
                      fetch: string -> Option<Bytes>, transcode: Bytes -> Option<Bytes>, clock: Clock): Pass {
    match fs.MakeDir(DirTwitch)
    case None => Pass(fs, [], Err(DirectoryBlocked(DirTwitch)))
    case Some(fs1) =>
      var l := TwitchListing(creds, helix);
      match l.result
      case Err(e) => Pass(fs1, l.sent, Err(e))
      case Ok(all) => ItemsPass(fs1, all, l.sent, fetch, transcode, clock)
  }

  /** The part of the pass after the listing (emote_common.py:140-175), given
      the URLs already requested. */
  function ItemsPass(fs1: FsState, all: seq<TwitchEmote>, sent: seq<string>,
                     fetch: string -> Option<Bytes>, transcode: Bytes -> Option<Bytes>, clock: Clock): Pass {
    var k := WellFormedPrefix(all);
    var w := Walk(fs1, PlansOf(all[..k], fetch, transcode), clock);
    if k < |all| then Pass(w.fs, sent + w.requests, Err(MissingKey(MissingKeyOf(all[k]).value)))
    else Finish(w, DirTwitch, sent)
  }

  /** The loop raises `KeyError` exactly when some listed emote lacks `name`
      or `id`. For the first such emote it names `name` when that is missing
      and `id` otherwise, and leaves the sidecar as it was;
      `ItemsStopAtMalformed` states that nothing after that emote is
      requested or written. */
  lemma ItemsKeyError(fs1: FsState, all: seq<TwitchEmote>, sent: seq<string>,
                      fetch: string -> Option<Bytes>, transcode: Bytes -> Option<Bytes>, clock: Clock)
    ensures var p := ItemsPass(fs1, all, sent, fetch, transcode, clock);
      (p.result.Err? && p.result.error.MissingKey?) <==> exists i :: 0 <= i < |all| && !WellFormed(all[i])
    ensures var p := ItemsPass(fs1, all, sent, fetch, transcode, clock);
      var k := WellFormedPrefix(all);
      k < |all| ==>
        p.result.Err? && p.result.error.MissingKey? &&
        p.result.error.key == (if all[k].name.None? then "name" else "id") &&
        (SidecarPath(DirTwitch) in p.fs.files <==> SidecarPath(DirTwitch) in fs1.files) &&
        (SidecarPath(DirTwitch) in fs1.files ==> p.fs.files[SidecarPath(DirTwitch)] == fs1.files[SidecarPath(DirTwitch)])
  {
    var k := WellFormedPrefix(all);
    var pre := all[..k];
    var plans := PlansOf(pre, fetch, transcode);
    var w := Walk(fs1, plans, clock);
    if k < |all| {
      assert MissingKeyOf(all[k]) == Some(if all[k].name.None? then "name" else "id");
      assert ItemsPass(fs1, all, sent, fetch, transcode, clock) == Pass(w.fs, sent + w.requests, Err(MissingKey(MissingKeyOf(all[k]).value)));
      PlansAvoidSidecar(pre, fetch, transcode);
      WalkSparesSidecar(fs1, plans, DirTwitch, clock);
    }
  }

  /** The loop stops at the first malformed emote, however the pass ends:
      after the URLs already sent, every request is the PNG URL of an emote
      before it, and every new asset file is the transcoded download of such
      an emote. */
  lemma ItemsStopAtMalformed(fs1: FsState, all: seq<TwitchEmote>, sent: seq<string>,
                             fetch: string -> Option<Bytes>, transcode: Bytes -> Option<Bytes>, clock: Clock)
    ensures var p := ItemsPass(fs1, all, sent, fetch, transcode, clock);
      var k := WellFormedPrefix(all);
      |sent| <= |p.requests| && p.requests[..|sent|] == sent &&
      (forall j :: |sent| <= j < |p.requests| ==> PrefixUrl(all, k, p.requests[j])) &&
      (forall q :: q in p.fs.files && q !in fs1.files && q != SidecarPath(DirTwitch) ==>
         exists i :: 0 <= i < k && NewAssetOf(all[i], q, p.fs.files[q], fetch, transcode))
  {
    var k := WellFormedPrefix(all);
    var w := Walk(fs1, PlansOf(all[..k], fetch, transcode), clock);
    PrefixRequests(fs1, all, k, sent, fetch, transcode, clock);
    var p := ItemsPass(fs1, all, sent, fetch, transcode, clock);
    assert p.requests == sent + w.requests;
    PrefixNewFiles(fs1, all, k, fetch, transcode, clock);
    assert forall q :: q in p.fs.files && q != SidecarPath(DirTwitch) ==> q in w.fs.files && p.fs.files[q] == w.fs.files[q] by {
      if k == |all| {
        FinishOnlyTouchesSidecar(w, DirTwitch, sent);
      }
    }
  }

  /** Without both credentials the pass raises before any request: nothing is
      fetched and no file changes, though the directory has been created. */
  lemma TwitchCredentialsMissing(fs: FsState, creds: Credentials, helix: string -> Option<HelixBody>,
                                 fetch: string -> Option<Bytes>, transcode: Bytes -> Option<Bytes>, clock: Clock)
    requires !HasCredentials(creds)
    ensures var p := TwitchPass(fs, creds, helix, fetch, transcode, clock);
      p.requests == [] && p.fs.files == fs.files &&
      p.result == (if DirTwitch in fs.files then Err(DirectoryBlocked(DirTwitch)) else Err(CredentialsMissing)) &&
      (DirTwitch !in fs.files ==> DirTwitch in p.fs.dirs)
  {
  }

  /** A listing failure raises before any per-item work: no file changes,
      only the listing requests made so far were sent, and the directory
      exists afterwards unless a file was in its way. */
  lemma TwitchListingFailure(fs: FsState, creds: Credentials, helix: string -> Option<HelixBody>,
                             fetch: string -> Option<Bytes>, transcode: Bytes -> Option<Bytes>, clock: Clock)
    requires TwitchListing(creds, helix).result.Err?
    ensures var p := TwitchPass(fs, creds, helix, fetch, transcode, clock);
      var l := TwitchListing(creds, helix);
      p.result.Err? && p.fs.files == fs.files &&
      (DirTwitch !in fs.files ==>
         DirTwitch in p.fs.dirs && p.requests == l.sent && p.result.error == l.result.error)
  {
  }

  /** The item loop and the finish change no file but the sidecar. */
  lemma ItemsKeepCachedFiles(fs1: FsState, all: seq<TwitchEmote>, sent: seq<string>,
                             fetch: string -> Option<Bytes>, transcode: Bytes -> Option<Bytes>, clock: Clock)
    ensures var p := ItemsPass(fs1, all, sent, fetch, transcode, clock);
      forall q :: q in fs1.files && q != SidecarPath(DirTwitch) ==> q in p.fs.files && p.fs.files[q] == fs1.files[q]
  {
    var k := WellFormedPrefix(all);
    var plans := PlansOf(all[..k], fetch, transcode);
    WalkKeepsExisting(fs1, plans, clock);
    if k == |all| {
      FinishOnlyTouchesSidecar(Walk(fs1, plans, clock), DirTwitch, sent);
    }
  }

  /** A pass never changes a cached file other than the sidecar, however it ends. */
  lemma TwitchKeepsCachedFiles(fs: FsState, creds: Credentials, helix: string -> Option<HelixBody>,
                               fetch: string -> Option<Bytes>, transcode: Bytes -> Option<Bytes>, clock: Clock)
    ensures var p := TwitchPass(fs, creds, helix, fetch, transcode, clock);
      forall q :: q in fs.files && q != SidecarPath(DirTwitch) ==> q in p.fs.files && p.fs.files[q] == fs.files[q]
  {
    var l := TwitchListing(creds, helix);
    if fs.MakeDir(DirTwitch).Some? && l.result.Ok? {
      ItemsKeepCachedFiles(fs.MakeDir(DirTwitch).value, l.result.value, l.sent, fetch, transcode, clock);
    }
  }

  /** `c`, found at `q`, is the transcoded PNG download of `e`'s asset path. */
  predicate NewAssetOf(e: TwitchEmote, q: Path, c: FileContent, fetch: string -> Option<Bytes>, transcode: Bytes -> Option<Bytes>) {
    WellFormed(e) && EmotePath(e) == q && fetch(PngUrl(e.id.value)).Some? &&
    c.Blob? && transcode(fetch(PngUrl(e.id.value)).value) == Some(c.bytes)
  }

  /** Every asset file the item loop creates is the transcoded PNG of one of
      the listed emotes, at that emote's `.webp` path. */
  lemma ItemsNewFiles(fs1: FsState, all: seq<TwitchEmote>, sent: seq<string>,
                      fetch: string -> Option<Bytes>, transcode: Bytes -> Option<Bytes>, clock: Clock)
    ensures var p := ItemsPass(fs1, all, sent, fetch, transcode, clock);
      forall q :: q in p.fs.files && q !in fs1.files && q != SidecarPath(DirTwitch) ==>
        exists i :: 0 <= i < |all| && NewAssetOf(all[i], q, p.fs.files[q], fetch, transcode)
  {
    var p := ItemsPass(fs1, all, sent, fetch, transcode, clock);
    var k := WellFormedPrefix(all);
    var w := Walk(fs1, PlansOf(all[..k], fetch, transcode), clock);
    PrefixNewFiles(fs1, all, k, fetch, transcode, clock);
    assert forall q :: q in p.fs.files && q != SidecarPath(DirTwitch) ==> q in w.fs.files && p.fs.files[q] == w.fs.files[q] by {
      if k == |all| {
        FinishOnlyTouchesSidecar(w, DirTwitch, sent);
      }
    }
  }

  /** Every file the loop over a well-formed prefix created is the asset of
      one of the first `k` emotes. */
  lemma PrefixNewFiles(fs1: FsState, es: seq<TwitchEmote>, k: nat, fetch: string -> Option<Bytes>, transcode: Bytes -> Option<Bytes>, clock: Clock)
    requires k <= |es| && forall j :: 0 <= j < k ==> WellFormed(es[j])
    ensures var w := Walk(fs1, PlansOf(es[..k], fetch, transcode), clock);
      forall q :: q in w.fs.files && q !in fs1.files ==>
        exists i :: 0 <= i < k && NewAssetOf(es[i], q, w.fs.files[q], fetch, transcode)
  {
    var plans := PlansOf(es[..k], fetch, transcode);
    var w := Walk(fs1, plans, clock);
    WalkNewFiles(fs1, plans, clock);
    forall q | q in w.fs.files && q !in fs1.files
      ensures exists i :: 0 <= i < k && NewAssetOf(es[i], q, w.fs.files[q], fetch, transcode)
    {
      var i :| 0 <= i < |plans| && i < |w.fates| && w.fates[i] == Added && plans[i].path == q &&
               plans[i].payload.Some? && w.fs.files[q] == Blob(plans[i].payload.value);
      PrefixPlanGivesAsset(es, k, i, q, w.fs.files[q], fetch, transcode);
    }
  }

  /** `u` is the PNG URL of one of the first `k` emotes. */
  predicate PrefixUrl(es: seq<TwitchEmote>, k: nat, u: string) {
    exists i :: 0 <= i < k && i < |es| && WellFormed(es[i]) && u == PngUrl(es[i].id.value)
  }

  /** Every request the loop over a well-formed prefix adds after `sent` is
      the PNG URL of one of the first `k` emotes. */
  lemma PrefixRequests(fs1: FsState, es: seq<TwitchEmote>, k: nat, sent: seq<string>,
                       fetch: string -> Option<Bytes>, transcode: Bytes -> Option<Bytes>, clock: Clock)
    requires k <= |es| && forall j :: 0 <= j < k ==> WellFormed(es[j])
    ensures var w := Walk(fs1, PlansOf(es[..k], fetch, transcode), clock);
      (sent + w.requests)[..|sent|] == sent &&
      forall j :: |sent| <= j < |sent + w.requests| ==> PrefixUrl(es, k, (sent + w.requests)[j])
  {
    var plans := PlansOf(es[..k], fetch, transcode);
    var w := Walk(fs1, plans, clock);
    WalkRequests(fs1, plans, clock);
    assert (sent + w.requests)[..|sent|] == sent;
    forall j | |sent| <= j < |sent + w.requests|
      ensures PrefixUrl(es, k, (sent + w.requests)[j])
    {
      var i := Indices(w.fates, Fetched)[j - |sent|];
      assert (sent + w.requests)[j] == w.requests[j - |sent|];
      assert es[..k][i] == es[i];
      assert w.requests[j - |sent|] == PngUrl(es[i].id.value);
    }
  }

  /** A written plan of the well-formed prefix is that emote's asset. */
  lemma PrefixPlanGivesAsset(es: seq<TwitchEmote>, k: nat, i: nat, q: Path, c: FileContent, fetch: string -> Option<Bytes>, transcode: Bytes -> Option<Bytes>)
    requires i < k <= |es| && forall j :: 0 <= j < k ==> WellFormed(es[j])
    requires PlansOf(es[..k], fetch, transcode)[i].path == q && PlansOf(es[..k], fetch, transcode)[i].payload.Some? &&
             c == Blob(PlansOf(es[..k], fetch, transcode)[i].payload.value)
    ensures NewAssetOf(es[i], q, c, fetch, transcode)
  {
    assert es[..k][i] == es[i];
    PlanGivesAsset(es[i], PlansOf(es[..k], fetch, transcode)[i], q, c, fetch, transcode);
  }

  lemma PlanGivesAsset(e: TwitchEmote, plan: Plan, q: Path, c: FileContent,
                       fetch: string -> Option<Bytes>, transcode: Bytes -> Option<Bytes>)
    requires WellFormed(e) && plan == PlanOf(e, fetch, transcode)
    requires plan.path == q && plan.payload.Some? && c == Blob(plan.payload.value)
    ensures NewAssetOf(e, q, c, fetch, transcode)
  {
  }

  /** Every asset file a pass creates is the transcoded PNG of a listed emote
      whose `.webp` path it is, however the pass ends. */
  lemma TwitchNewFilesAreTranscoded(fs: FsState, creds: Credentials, helix: string -> Option<HelixBody>,
                                    fetch: string -> Option<Bytes>, transcode: Bytes -> Option<Bytes>, clock: Clock)
    ensures var p := TwitchPass(fs, creds, helix, fetch, transcode, clock);
      forall q :: q in p.fs.files && q !in fs.files && q != SidecarPath(DirTwitch) ==>
        TwitchListing(creds, helix).result.Ok? &&
        exists i :: 0 <= i < |TwitchListing(creds, helix).result.value| &&
          NewAssetOf(TwitchListing(creds, helix).result.value[i], q, p.fs.files[q], fetch, transcode)
  {
    var l := TwitchListing(creds, helix);
    if fs.MakeDir(DirTwitch).Some? && l.result.Ok? {
      ItemsNewFiles(fs.MakeDir(DirTwitch).value, l.result.value, l.sent, fetch, transcode, clock);
    }
  }

  /** An item loop that returns got through every item and finished. */
  lemma ItemsFinish(fs1: FsState, all: seq<TwitchEmote>, sent: seq<string>,
                    fetch: string -> Option<Bytes>, transcode: Bytes -> Option<Bytes>, clock: Clock)
    requires ItemsPass(fs1, all, sent, fetch, transcode, clock).result.Ok?
    ensures forall j :: 0 <= j < |all| ==> WellFormed(all[j])
    ensures ItemsPass(fs1, all, sent, fetch, transcode, clock) ==
            Finish(Walk(fs1, PlansOf(all, fetch, transcode), clock), DirTwitch, sent)
  {
    PrefixWhole(all, WellFormedPrefix(all));
  }

  /** `meta[j]` is the record of `all[ks[j]]`, stamped with the j-th clock
      reading, for ascending indices `ks`. */
  ghost predicate RecordsAt(meta: seq<EmoteRecord>, all: seq<TwitchEmote>, ks: seq<nat>, clock: Clock) {
    |ks| == |meta| &&
    (forall j, l :: 0 <= j < l < |ks| ==> ks[j] < ks[l]) &&
    (forall j :: 0 <= j < |ks| ==>
       ks[j] < |all| && WellFormed(all[ks[j]]) &&
       meta[j] == ToRecord(all[ks[j]]).(downloadedAt := clock(j)))
  }

  /** A successful item loop accounts for every item exactly once, follows
      the listing requests with one per fetched item, records the non-failed
      items in order, and leaves exactly those records in the sidecar. */
  lemma ItemsSucceeded(fs1: FsState, all: seq<TwitchEmote>, sent: seq<string>,
                       fetch: string -> Option<Bytes>, transcode: Bytes -> Option<Bytes>, clock: Clock, p: Pass)
    requires forall j :: 0 <= j < |all| ==> WellFormed(all[j])
    requires p == Finish(Walk(fs1, PlansOf(all, fetch, transcode), clock), DirTwitch, sent)
    requires p.result.Ok?
    ensures var s := p.result.value;
      |p.requests| == |sent| + s.added + s.failed && p.requests[..|sent|] == sent &&
      s.added + s.same + s.failed == |all| &&
      |s.meta| == s.added + s.same &&
      p.fs.LoadMeta(SidecarPath(DirTwitch)) == Ok(s.meta) &&
      RecordsAt(s.meta, all, Indices(Walk(fs1, PlansOf(all, fetch, transcode), clock).fates, Kept), clock)
  {
    var plans := PlansOf(all, fetch, transcode);
    var w := Walk(fs1, plans, clock);
    var s := p.result.value;
    FinishSucceeded(fs1, plans, DirTwitch, sent, clock, w, p);
    PrefixOfAppend(sent, w.requests);
    StampsAreRecords(all, plans, s.meta, Indices(w.fates, Kept), fetch, transcode, clock);
  }

  /** Stamped plans of well-formed emotes are their stamped records. */
  lemma StampsAreRecords(all: seq<TwitchEmote>, plans: seq<Plan>, meta: seq<EmoteRecord>, ks: seq<nat>,
                         fetch: string -> Option<Bytes>, transcode: Bytes -> Option<Bytes>, clock: Clock)
    requires forall j :: 0 <= j < |all| ==> WellFormed(all[j])
    requires |plans| == |all| && forall j :: 0 <= j < |all| ==> plans[j] == PlanOf(all[j], fetch, transcode)
    requires |ks| == |meta| && forall j :: 0 <= j < |ks| ==> ks[j] < |plans| && meta[j] == Stamp(plans[ks[j]], clock(j))
    requires forall j, l :: 0 <= j < l < |ks| ==> ks[j] < ks[l]
    ensures RecordsAt(meta, all, ks, clock)
  {
    assert forall j :: 0 <= j < |ks| ==>
      ks[j] < |all| && WellFormed(all[ks[j]]) && meta[j] == ToRecord(all[ks[j]]).(downloadedAt := clock(j));
    assert RecordsAt(meta, all, ks, clock);
  }

  /** A successful pass requested both listings first, accounts for every
      listed emote exactly once, records the non-failed ones in listing order
      (global emotes before channel emotes), and leaves exactly those records
      in the sidecar. */
  lemma TwitchPassSucceeded(fs: FsState, creds: Credentials, helix: string -> Option<HelixBody>,
                            fetch: string -> Option<Bytes>, transcode: Bytes -> Option<Bytes>, clock: Clock)
    requires TwitchPass(fs, creds, helix, fetch, transcode, clock).result.Ok?
    ensures HasCredentials(creds) && TwitchListing(creds, helix).result.Ok?
    ensures var all := TwitchListing(creds, helix).result.value;
      var p := TwitchPass(fs, creds, helix, fetch, transcode, clock);
      var s := p.result.value;
      all == helix(GlobalUrl).value.data.value + helix(ChannelUrl).value.data.value &&
      (forall j :: 0 <= j < |all| ==> WellFormed(all[j])) &&
      |p.requests| == 2 + s.added + s.failed && p.requests[..2] == [GlobalUrl, ChannelUrl] &&
      s.added + s.same + s.failed == |all| &&
      |s.meta| == s.added + s.same &&
      p.fs.LoadMeta(SidecarPath(DirTwitch)) == Ok(s.meta) &&
      RecordsAt(s.meta, all, Indices(Walk(fs.MakeDir(DirTwitch).value, PlansOf(all, fetch, transcode), clock).fates, Kept), clock)
  {
    var l := TwitchListing(creds, helix);
    TwitchListingSpec(creds, helix);
    var fs1 := fs.MakeDir(DirTwitch).value;
    ItemsFinish(fs1, l.result.value, l.sent, fetch, transcode, clock);
    ItemsSucceeded(fs1, l.result.value, l.sent, fetch, transcode, clock, TwitchPass(fs, creds, helix, fetch, transcode, clock));
  }

  /** No two well-formed listed emotes share an asset path. */
  predicate DistinctEmotePaths(es: seq<TwitchEmote>) {
    forall i, j :: 0 <= i < j < |es| && WellFormed(es[i]) && WellFormed(es[j]) ==> EmotePath(es[i]) != EmotePath(es[j])
  }

  /** The item loop and save run again over the disk a successful run left. */
  lemma ItemsPassAgain(fs1: FsState, all: seq<TwitchEmote>, sent: seq<string>,
                       fetch: string -> Option<Bytes>, transcode: Bytes -> Option<Bytes>,
                       c1: Clock, c2: Clock, p1: Pass, p2: Pass)
    requires (forall j :: 0 <= j < |all| ==> WellFormed(all[j])) && DistinctEmotePaths(all)
    requires p1 == Finish(Walk(fs1, PlansOf(all, fetch, transcode), c1), DirTwitch, sent) && p1.result.Ok?
    requires p2 == ItemsPass(p1.fs, all, sent, fetch, transcode, c2)
    ensures p1.fs.MakeDir(DirTwitch) == Some(p1.fs)
    ensures p2.result.Ok? && p2.fs.dirs == p1.fs.dirs &&
            p2.fs.files == p1.fs.files[SidecarPath(DirTwitch) := Sidecar(p2.result.value.meta)]
    ensures var s1, s2 := p1.result.value, p2.result.value;
      s2.added == 0 && s2.failed == s1.failed && s2.same == s1.same + s1.added &&
      |s2.meta| == |s1.meta| &&
      forall j :: 0 <= j < |s1.meta| ==> s2.meta[j] == s1.meta[j].(downloadedAt := c2(j))
  {
    var plans := PlansOf(all, fetch, transcode);
    PrefixWhole(all, WellFormedPrefix(all));
    PlansAvoidSidecar(all, fetch, transcode);
    FinishAgain(fs1, plans, DirTwitch, sent, sent, c1, c2, p1, Walk(p1.fs, plans, c2), p2);
  }

  /** Running the pass a second time with the same Helix answers, downloads
      and transcoder, when no two listed emotes share an asset path: it
      succeeds, writes no asset and changes no directory, and its sidecar
      lists the same emotes as the first run's, fails the same ones, counts
      every earlier download as unchanged, and differs only in `downloaded_at`. */
  lemma TwitchPassAgain(fs: FsState, creds: Credentials, helix: string -> Option<HelixBody>,
                        fetch: string -> Option<Bytes>, transcode: Bytes -> Option<Bytes>, c1: Clock, c2: Clock)
    requires TwitchPass(fs, creds, helix, fetch, transcode, c1).result.Ok?
    requires TwitchListing(creds, helix).result.Ok? && DistinctEmotePaths(TwitchListing(creds, helix).result.value)
    ensures var p1 := TwitchPass(fs, creds, helix, fetch, transcode, c1);
      var p2 := TwitchPass(p1.fs, creds, helix, fetch, transcode, c2);
      p2.result.Ok? && p2.fs.dirs == p1.fs.dirs &&
      p2.fs.files == p1.fs.files[SidecarPath(DirTwitch) := Sidecar(p2.result.value.meta)] &&
      var s1, s2 := p1.result.value, p2.result.value;
      s2.added == 0 && s2.failed == s1.failed && s2.same == s1.same + s1.added &&
      |s2.meta| == |s1.meta| &&
      forall j :: 0 <= j < |s1.meta| ==> s2.meta[j] == s1.meta[j].(downloadedAt := c2(j))
  {
    var l := TwitchListing(creds, helix);
    var all := l.result.value;
    var fs1 := fs.MakeDir(DirTwitch).value;
    ItemsFinish(fs1, all, l.sent, fetch, transcode, c1);
    var p1 := TwitchPass(fs, creds, helix, fetch, transcode, c1);
    ItemsPassAgain(fs1, all, l.sent, fetch, transcode, c1, c2, p1, ItemsPass(p1.fs, all, l.sent, fetch, transcode, c2));
  }

  /** `fetch_twitch_emotes()`, updating `disk` in place. */
  method FetchTwitchEmotes(disk: Disk, creds: Credentials, helix: string -> Option<HelixBody>,
                           fetch: string -> Option<Bytes>, transcode: Bytes -> Option<Bytes>, clock: Clock)
    returns (result: Result<Summary, SyncError>, requests: seq<string>)
    modifies disk
    ensures Pass(disk.State(), requests, result) == TwitchPass(old(disk.State()), creds, helix, fetch, transcode, clock)
  {
    var made := disk.MakeDirs(DirTwitch);
    if !made {
      return Err(DirectoryBlocked(DirTwitch)), [];
    }
    var listing := TwitchListing(creds, helix);
    requests := listing.sent;
    if listing.result.Err? {
      return Err(listing.result.error), requests;
    }
    result, requests := SyncItems(disk, listing.result.value, requests, fetch, transcode, clock);
  }

  /** One pass of the loop body (emote_common.py:144-172) for an emote that
      has its keys: a present file is counted as unchanged, otherwise the PNG
      is downloaded and saved as WebP; a failure in either step is counted
      and gets no record. */
  method SyncItem(disk: Disk, e: TwitchEmote, fetch: string -> Option<Bytes>, transcode: Bytes -> Option<Bytes>,
                  clock: Clock, ghost w: Walked,
                  meta: seq<EmoteRecord>, added: nat, same: nat, failed: nat, fetched: seq<string>)
    returns (meta': seq<EmoteRecord>, added': nat, same': nat, failed': nat, fetched': seq<string>)
    requires WellFormed(e)
    requires disk.State() == w.fs && meta == w.meta && fetched == w.requests &&
             added == w.added && same == w.same && failed == w.failed
    modifies disk
    ensures var s := Step(w, PlanOf(e, fetch, transcode), clock);
      disk.State() == s.fs && meta' == s.meta && fetched' == s.requests &&
      added' == s.added && same' == s.same && failed' == s.failed
  {
    meta', added', same', failed', fetched' := meta, added, same, failed, fetched;
    var fp := AssetPath(DirTwitch, e.id.value, e.name.value);
    var url := PngUrl(e.id.value);
    var present := disk.Exists(fp);
    if present {
      same' := same + 1;
    } else {
      fetched' := fetched + [url];
      var png := fetch(url);
      var img := if png.Some? then transcode(png.value) else None;
      if img.None? {
        failed' := failed + 1;
        return;
      }
      disk.WriteBytes(fp, img.value);
      added' := added + 1;
    }
    meta' := meta + [ToRecord(e).(downloadedAt := clock(|meta|))];
  }

  /** The loop of `fetch_twitch_emotes` and the final `_save_meta`. */
  method SyncItems(disk: Disk, all: seq<TwitchEmote>, sent: seq<string>,
                   fetch: string -> Option<Bytes>, transcode: Bytes -> Option<Bytes>, clock: Clock)
    returns (result: Result<Summary, SyncError>, requests: seq<string>)
    modifies disk
    ensures Pass(disk.State(), requests, result) == ItemsPass(old(disk.State()), all, sent, fetch, transcode, clock)
  {
    var fetched: seq<string> := [];
    ghost var fs1 := disk.State();
    ghost var plans: seq<Plan> := [];
    ghost var w := Start(fs1);
    var added, same, failed := 0, 0, 0;
    var meta: seq<EmoteRecord> := [];
    var i := 0;
    while i < |all|
      invariant 0 <= i <= |all| && |plans| == i
      invariant forall j :: 0 <= j < i ==> WellFormed(all[j]) && plans[j] == PlanOf(all[j], fetch, transcode)
      invariant w == Walk(fs1, plans, clock)
      invariant disk.State() == w.fs && meta == w.meta && fetched == w.requests &&
        added == w.added && same == w.same && failed == w.failed
    {
      var e := all[i];
      var missing := MissingKeyOf(e);
      if missing.Some? {
        assert WellFormedPrefix(all) == i;
        PlansOfPrefix(all, i, plans, fetch, transcode);
        return Err(MissingKey(missing.value)), sent + fetched;
      }
      ghost var plan := PlanOf(e, fetch, transcode);
      WalkAppend(fs1, plans, plan, clock);
      PlansSnoc(all, i, plans, fetch, transcode);
      plans := plans + [plan];
      meta, added, same, failed, fetched := SyncItem(disk, e, fetch, transcode, clock, w, meta, added, same, failed, fetched);
      w := Step(w, plan, clock);
      i := i + 1;
    }
    assert WellFormedPrefix(all) == |all|;
    requests := sent + fetched;
    PlansOfPrefix(all, i, plans, fetch, transcode);
    var saved := disk.SaveMeta(DirTwitch, meta);
    if saved {
      result := Ok(Summary(meta, added, same, failed));
    } else {
      result := Err(SidecarBlocked(SidecarPath(DirTwitch)));
    }
  }
}
