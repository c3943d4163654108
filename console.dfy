/** The gallery of emote_console.py: where a record's image is looked for,
    which thumbnails are placed in which grid cell, what the details panel
    shows, and how the window's lists change as the user picks a source,
    types a filter or refreshes. */
module Console {
  import opened Results
  import opened EmoteStore
  import opened ConsoleText
  import opened ConsoleListing
  import SyncWalk
  import SevenTvSync
  import TwitchSync

  /** `EmoteConsole._meta_path(m)` (emote_console.py:90-95): the recorded
      path, or for an older record without one a guess from its name. */
  function MetaPath(m: EmoteRecord): (p: Path)
    ensures m.path.Some? ==> p == m.path.value
    ensures m.path.None? && m.source == "7tv" ==> p == Join(Dir7tv, m.name + ".webp")
    ensures m.path.None? && m.source != "7tv" ==> p == Join(DirTwitch, m.name + ".png")
  {
    match m.path
    case Some(p) => p
    case None =>
      var base := if m.source == "7tv" then Dir7tv else DirTwitch;
      var ext := if m.source == "7tv" then ".webp" else ".png";
      Join(base, m.name + ext)
  }

  /** A record a 7TV pass wrote points back at the asset that pass stored. */
  lemma MetaPathOfSevenTvRecord(e: SevenTvSync.Emote, t: string)
    requires SevenTvSync.WellFormed(e)
    ensures MetaPath(SevenTvSync.ToRecord(e).(downloadedAt := t)) == SevenTvSync.EmotePath(e)
  {
  }

  /** A record a Twitch pass wrote points back at the asset that pass stored. */
  lemma MetaPathOfTwitchRecord(e: TwitchSync.TwitchEmote, t: string)
    requires TwitchSync.WellFormed(e)
    ensures MetaPath(TwitchSync.ToRecord(e).(downloadedAt := t)) == TwitchSync.EmotePath(e)
  {
  }

  /** RGBA pixels after `Image.open(...).convert("RGBA").resize(...)`. */
  type Bitmap = seq<byte>

  /** PIL as seen from the console: decoding a file's content at a given
      square size, `None` when the content is not an image. */
  type Renderer = (FileContent, nat) -> Option<Bitmap>

  datatype Image = Image(pixels: Bitmap, side: nat)

  /** The `side`-pixel image of a record: none when its path does not exist,
      is a directory, or holds content the renderer does not decode. */
  function Picture(fs: FsState, render: Renderer, m: EmoteRecord, side: nat): (r: Option<Image>)
    ensures r.Some? ==> fs.Exists(MetaPath(m)) && MetaPath(m) in fs.files && r.value.side == side
    ensures r.Some? <==> MetaPath(m) in fs.files && render(fs.files[MetaPath(m)], side).Some?
  {
    var p := MetaPath(m);
    if !fs.Exists(p) || p !in fs.files then None
    else match render(fs.files[p], side)
      case None => None
      case Some(b) => Some(Image(b, side))
  }

  /** One grid button: its row and column, the record it shows details of, its image. */
  datatype Cell = Cell(row: nat, col: nat, meta: EmoteRecord, image: Image)

  /** The listing position a cell was placed for. */
  function Pos(c: Cell): nat {
    c.row * GridCols + c.col
  }

  /** The buttons the loop of emote_console.py:119-140 places for `ms`: the
      record at listing position `idx` goes to `divmod(idx, GRID_COLS)` when
      its thumbnail loads, and leaves its cell empty otherwise. */
  function CellsOf(fs: FsState, render: Renderer, ms: seq<EmoteRecord>): seq<Cell> {
    if ms == [] then []
    else
      var idx := |ms| - 1;
      CellsOf(fs, render, ms[..idx]) +
      match Picture(fs, render, ms[idx], ThumbSize)
      case None => []
      case Some(img) => [Cell(idx / GridCols, idx % GridCols, ms[idx], img)]
  }

  /** `thumb_refs` after the same loop: each shown name mapped to the
      thumbnail placed last under that name. */
  function RefsOf(fs: FsState, render: Renderer, ms: seq<EmoteRecord>): map<string, Image> {
    if ms == [] then map[]
    else
      var idx := |ms| - 1;
      match Picture(fs, render, ms[idx], ThumbSize)
      case None => RefsOf(fs, render, ms[..idx])
      case Some(img) => RefsOf(fs, render, ms[..idx])[ms[idx].name := img]
  }

  function CellFor(fs: FsState, render: Renderer, ms: seq<EmoteRecord>, i: nat): seq<Cell>
    requires i < |ms|
  {
    match Picture(fs, render, ms[i], ThumbSize)
    case None => []
    case Some(img) => [Cell(i / GridCols, i % GridCols, ms[i], img)]
  }

  lemma CellsStep(fs: FsState, render: Renderer, ms: seq<EmoteRecord>, i: nat)
    requires i < |ms|
    ensures CellsOf(fs, render, ms[..i + 1]) == CellsOf(fs, render, ms[..i]) + CellFor(fs, render, ms, i)
    ensures RefsOf(fs, render, ms[..i + 1]) ==
              match Picture(fs, render, ms[i], ThumbSize)
              case None => RefsOf(fs, render, ms[..i])
              case Some(img) => RefsOf(fs, render, ms[..i])[ms[i].name := img]
  {
    assert ms[..i + 1][..i] == ms[..i];
    assert ms[..i + 1][i] == ms[i];
  }

  /** A placed thumbnail sits in one of the grid's columns at the position
      of its record in the listing, shows that record and its thumbnail;
      positions increase along the cells, so no two buttons share a cell;
      and every record whose thumbnail loads is placed. */
  lemma {:induction false} CellsGrid(fs: FsState, render: Renderer, ms: seq<EmoteRecord>)
    ensures var cs := CellsOf(fs, render, ms);
      |cs| <= |ms| &&
      (forall j :: 0 <= j < |cs| ==>
         cs[j].col < GridCols && Pos(cs[j]) < |ms| && cs[j].meta == ms[Pos(cs[j])] &&
         Picture(fs, render, ms[Pos(cs[j])], ThumbSize) == Some(cs[j].image)) &&
      (forall j, l :: 0 <= j < l < |cs| ==> Pos(cs[j]) < Pos(cs[l])) &&
      (forall i :: 0 <= i < |ms| && Picture(fs, render, ms[i], ThumbSize).Some? ==>
         exists j :: 0 <= j < |cs| && Pos(cs[j]) == i)
  {
    if ms != [] {
      var idx := |ms| - 1;
      CellsGrid(fs, render, ms[..idx]);
      assert CellsOf(fs, render, ms) == CellsOf(fs, render, ms[..idx]) + CellFor(fs, render, ms, idx);
      GridSnoc(fs, render, ms, CellsOf(fs, render, ms[..idx]));
    }
  }

  /** The shape `CellsGrid` states, for a listing `ms` and cells `cs`. */
  ghost predicate GridLayout(fs: FsState, render: Renderer, ms: seq<EmoteRecord>, cs: seq<Cell>) {
    |cs| <= |ms| &&
    (forall j :: 0 <= j < |cs| ==>
       cs[j].col < GridCols && Pos(cs[j]) < |ms| && cs[j].meta == ms[Pos(cs[j])] &&
       Picture(fs, render, ms[Pos(cs[j])], ThumbSize) == Some(cs[j].image)) &&
    (forall j, l :: 0 <= j < l < |cs| ==> Pos(cs[j]) < Pos(cs[l])) &&
    (forall i :: 0 <= i < |ms| && Picture(fs, render, ms[i], ThumbSize).Some? ==>
       exists j :: 0 <= j < |cs| && Pos(cs[j]) == i)
  }

  /** The cell placed for position `i`, if any, sits at position `i`. */
  lemma CellForFacts(fs: FsState, render: Renderer, ms: seq<EmoteRecord>, i: nat)
    requires i < |ms|
    ensures var cf := CellFor(fs, render, ms, i);
      |cf| <= 1 &&
      (|cf| == 1 <==> Picture(fs, render, ms[i], ThumbSize).Some?) &&
      (|cf| == 1 ==> cf[0].col < GridCols && Pos(cf[0]) == i && cf[0].meta == ms[i] &&
                     Picture(fs, render, ms[i], ThumbSize) == Some(cf[0].image))
  {
    assert (i / GridCols) * GridCols + i % GridCols == i;
  }

  /** Placing the cell of the last record keeps the layout. */
  lemma GridSnoc(fs: FsState, render: Renderer, ms: seq<EmoteRecord>, ci: seq<Cell>)
    requires ms != [] && GridLayout(fs, render, ms[..|ms| - 1], ci)
    ensures GridLayout(fs, render, ms, ci + CellFor(fs, render, ms, |ms| - 1))
  {
    var idx := |ms| - 1;
    var init := ms[..idx];
    var cf := CellFor(fs, render, ms, idx);
    var cs := ci + cf;
    CellForFacts(fs, render, ms, idx);
    assert forall j :: 0 <= j < |ci| ==> cs[j] == ci[j] && ms[Pos(ci[j])] == init[Pos(ci[j])];
    assert |cf| == 1 ==> cs[|cs| - 1] == cf[0];
    forall i | 0 <= i < |ms| && Picture(fs, render, ms[i], ThumbSize).Some?
      ensures exists j :: 0 <= j < |cs| && Pos(cs[j]) == i
    {
      if i < idx {
        assert init[i] == ms[i];
        var j :| 0 <= j < |ci| && Pos(ci[j]) == i;
        assert cs[j] == ci[j];
      } else {
        assert Pos(cs[|cs| - 1]) == i;
      }
    }
  }

  /** Positions count skipped records too: when the first record's image
      is missing and the second's loads, the second lands in row 0, column 1,
      and the cell at row 0, column 0 stays empty. */
  lemma SkippedRecordLeavesGap(fs: FsState, render: Renderer, ms: seq<EmoteRecord>)
    requires |ms| == 2
    requires Picture(fs, render, ms[0], ThumbSize).None? && Picture(fs, render, ms[1], ThumbSize).Some?
    ensures CellsOf(fs, render, ms) == [Cell(0, 1, ms[1], Picture(fs, render, ms[1], ThumbSize).value)]
  {
    assert ms[..1][..0] == [] && ms[..1][0] == ms[0];
    assert CellsOf(fs, render, ms[..1]) == [];
    assert ms[..1] == ms[..|ms| - 1];
  }

  /** No other cell after `j` shows a record with the same name. */
  predicate LastWithName(cs: seq<Cell>, j: int)
    requires 0 <= j < |cs|
  {
    forall l :: j < l < |cs| ==> cs[l].meta.name != cs[j].meta.name
  }

  /** `rs` holds exactly the names shown in `cs`, each with the image of the
      last cell under that name. */
  ghost predicate RefsMatch(cs: seq<Cell>, rs: map<string, Image>) {
    (forall n :: n in rs <==> exists j :: 0 <= j < |cs| && cs[j].meta.name == n) &&
    (forall j :: 0 <= j < |cs| && LastWithName(cs, j) ==> cs[j].meta.name in rs && rs[cs[j].meta.name] == cs[j].image)
  }

  lemma RefsMatchSnoc(cs: seq<Cell>, rs: map<string, Image>, c: Cell)
    requires RefsMatch(cs, rs)
    ensures RefsMatch(cs + [c], rs[c.meta.name := c.image])
  {
    var cs', rs' := cs + [c], rs[c.meta.name := c.image];
    forall n ensures n in rs' <==> exists j :: 0 <= j < |cs'| && cs'[j].meta.name == n {
      if n == c.meta.name {
        assert cs'[|cs|].meta.name == n;
      } else if n in rs {
        var j :| 0 <= j < |cs| && cs[j].meta.name == n;
        assert cs'[j] == cs[j];
      }
    }
    forall j | 0 <= j < |cs'| && LastWithName(cs', j)
      ensures cs'[j].meta.name in rs' && rs'[cs'[j].meta.name] == cs'[j].image
    {
      if j < |cs| {
        assert cs'[j] == cs[j];
        assert cs'[|cs|] == c;
        assert LastWithName(cs, j) by {
          forall l | j < l < |cs| ensures cs[l].meta.name != cs[j].meta.name {
            assert cs'[l] == cs[l];
          }
        }
      }
    }
  }

  /** `thumb_refs` holds exactly the names of the placed cells, each with
      the image of the last cell placed under that name. */
  lemma {:induction false} RefsOfCells(fs: FsState, render: Renderer, ms: seq<EmoteRecord>)
    ensures RefsMatch(CellsOf(fs, render, ms), RefsOf(fs, render, ms))
  {
    if ms != [] {
      var idx := |ms| - 1;
      var ci, ri := CellsOf(fs, render, ms[..idx]), RefsOf(fs, render, ms[..idx]);
      RefsOfCells(fs, render, ms[..idx]);
      match Picture(fs, render, ms[idx], ThumbSize)
      case None =>
        assert CellsOf(fs, render, ms) == ci && RefsOf(fs, render, ms) == ri;
      case Some(img) =>
        var c := Cell(idx / GridCols, idx % GridCols, ms[idx], img);
        assert CellsOf(fs, render, ms) == ci + [c] && RefsOf(fs, render, ms) == ri[c.meta.name := c.image];
        RefsMatchSnoc(ci, ri, c);
    }
  }

  /** The details panel: the preview image and the info text. */
  datatype Panel = Panel(preview: Option<Image>, info: string)

  const NoMatchText: string := "(no emotes match)"

  /** `", ".join(tags)` */
  function JoinTags(tags: seq<string>): string {
    if tags == [] then ""
    else if |tags| == 1 then tags[0]
    else JoinTags(tags[..|tags| - 1]) + ", " + tags[|tags| - 1]
  }

  /** The tags after the first, each preceded by `", "`. */
  function Separated(tags: seq<string>): string {
    if tags == [] then "" else ", " + tags[0] + Separated(tags[1..])
  }

  lemma {:induction false} SeparatedSnoc(tags: seq<string>, t: string)
    ensures Separated(tags + [t]) == Separated(tags) + ", " + t
  {
    if tags != [] {
      assert (tags + [t])[1..] == tags[1..] + [t];
      SeparatedSnoc(tags[1..], t);
    }
  }

  /** `JoinTags` is `", ".join` read from the front: the first tag, then each
      later one after a `", "`. */
  lemma {:induction false} JoinTagsIsJoin(tags: seq<string>)
    ensures JoinTags(tags) == if tags == [] then "" else tags[0] + Separated(tags[1..])
  {
    if |tags| > 1 {
      var init := tags[..|tags| - 1];
      JoinTagsIsJoin(init);
      SeparatedSnoc(init[1..], tags[|tags| - 1]);
      assert init[1..] + [tags[|tags| - 1]] == tags[1..];
    }
  }

  /** The text of emote_console.py:167-175. */
  function InfoText(m: EmoteRecord): string {
    var tags := JoinTags(m.tags);
    "Name: " + m.name + "\n" +
    "ID: " + m.id + "\n" +
    "Source: " + m.source + "\n" +
    "Owner: " + m.owner + "\n" +
    "Animated: " + (if m.animated then "True" else "False") + "\n" +
    "Downloaded: " + m.downloadedAt + "\n" +
    "Tags: " + (if tags == "" then "(none)" else tags)
  }

  /** `_show_details(m)` (emote_console.py:151-175) on the panel's value. */
  function ShowOn(panel: Panel, fs: FsState, render: Renderer, m: EmoteRecord): Panel {
    match Picture(fs, render, m, PreviewSize)
    case None => panel
    case Some(img) => Panel(Some(img), InfoText(m))
  }

  /** The end of a build (emote_console.py:144-149): details of the first
      listed record, or the no-match message. */
  function FirstPanel(panel: Panel, fs: FsState, render: Renderer, shown: seq<EmoteRecord>): Panel {
    if shown == [] then Panel(None, NoMatchText) else ShowOn(panel, fs, render, shown[0])
  }

  /** After a build the panel says no match exactly when nothing is listed;
      otherwise it describes the first listed record with its 256-pixel
      preview, or is left as it was when that record's image cannot be shown. */
  lemma FirstPanelSpec(panel: Panel, fs: FsState, render: Renderer, shown: seq<EmoteRecord>)
    requires panel.info != NoMatchText
    ensures var p := FirstPanel(panel, fs, render, shown);
      (p.info == NoMatchText <==> shown == []) &&
      (shown != [] && Picture(fs, render, shown[0], PreviewSize).Some? ==>
         p.preview.Some? && p.preview.value.side == PreviewSize && p.info == InfoText(shown[0])) &&
      (shown != [] && Picture(fs, render, shown[0], PreviewSize).None? ==> p == panel)
  {
    if shown != [] && Picture(fs, render, shown[0], PreviewSize).Some? {
      var t := InfoText(shown[0]);
      assert t[0] == 'N' && NoMatchText[0] == '(';
    }
  }

  /** With an empty query and a single source, `metas` is the window's own
      list, so `metas.sort()` reorders that list in place. */
  predicate SortsInPlace(source: string, filterText: string, which: string) {
    Query(filterText) == [] && source == which
  }

  /** The list of 7TV records after a build. */
  function Kept7(source: string, filterText: string, metas7: seq<EmoteRecord>, metatw: seq<EmoteRecord>): seq<EmoteRecord> {
    if SortsInPlace(source, filterText, "7tv") then Shown(source, filterText, metas7, metatw) else metas7
  }

  /** The list of official records after a build. */
  function KeptTw(source: string, filterText: string, metas7: seq<EmoteRecord>, metatw: seq<EmoteRecord>): seq<EmoteRecord> {
    if SortsInPlace(source, filterText, "official") then Shown(source, filterText, metas7, metatw) else metatw
  }

  /** The in-place sort is harmless to the listing: a second build with
      the same source and filter lists the same records in the same order,
      and every list the window keeps holds the same records as before. */
  lemma RebuildListsTheSame(source: string, filterText: string, metas7: seq<EmoteRecord>, metatw: seq<EmoteRecord>)
    ensures var m7 := Kept7(source, filterText, metas7, metatw);
      var mtw := KeptTw(source, filterText, metas7, metatw);
      Shown(source, filterText, m7, mtw) == Shown(source, filterText, metas7, metatw) &&
      multiset(m7) == multiset(metas7) && multiset(mtw) == multiset(metatw)
  {
    var shown := Shown(source, filterText, metas7, metatw);
    if SortsInPlace(source, filterText, "7tv") {
      SortSorted(metas7);
      SortPermutes(metas7);
      SortKeepsSorted(shown);
    } else if SortsInPlace(source, filterText, "official") {
      SortSorted(metatw);
      SortPermutes(metatw);
      SortKeepsSorted(shown);
    }
  }

  /** The window's state, less its widgets. */
  class Gallery {
    var source: string                  // `src_var`
    var filterText: string              // `filter_var`
    var metas7: seq<EmoteRecord>
    var metatw: seq<EmoteRecord>
    var thumbRefs: map<string, Image>
    var cells: seq<Cell>                // the children of `grid_frame`
    var panel: Panel                    // `preview_lbl` and `info_lbl`

    /** emote_console.py:40-81 once both sidecars have been read: the source
        starts as "7tv", the filter empty; the gallery is built, and then the
        first record of `metas7 or metatw` is shown. */
    constructor (fs: FsState, render: Renderer, loaded7: seq<EmoteRecord>, loadedTw: seq<EmoteRecord>)
      ensures source == "7tv" && filterText == ""
      ensures metas7 == Kept7("7tv", "", loaded7, loadedTw) && metatw == loadedTw
      ensures cells == CellsOf(fs, render, Shown("7tv", "", loaded7, loadedTw))
      ensures thumbRefs == RefsOf(fs, render, Shown("7tv", "", loaded7, loadedTw))
      ensures var built := FirstPanel(Panel(None, ""), fs, render, Shown("7tv", "", loaded7, loadedTw));
        var first := if metas7 != [] then metas7 else metatw;
        panel == if first != [] then ShowOn(built, fs, render, first[0]) else built
    {
      source := "7tv";
      filterText := "";
      metas7 := loaded7;
      metatw := loadedTw;
      thumbRefs := map[];
      cells := [];
      panel := Panel(None, "");
      new;
      BuildGallery(fs, render);
      var first := if metas7 != [] then metas7 else metatw;
      if first != [] {
        ShowDetails(fs, render, first[0]);
      }
    }

    /** `_show_details(m)`: the preview and text of `m` when its image loads,
        otherwise nothing changes. */
    method ShowDetails(fs: FsState, render: Renderer, m: EmoteRecord)
      modifies this
      ensures panel == ShowOn(old(panel), fs, render, m)
      ensures source == old(source) && filterText == old(filterText)
      ensures metas7 == old(metas7) && metatw == old(metatw)
      ensures thumbRefs == old(thumbRefs) && cells == old(cells)
    {
      var path := MetaPath(m);
      if !fs.Exists(path) || path !in fs.files {
        return;
      }
      var pixels := render(fs.files[path], PreviewSize);
      if pixels.None? {
        return;
      }
      panel := Panel(Some(Image(pixels.value, PreviewSize)), InfoText(m));
    }

    /** `_build_gallery()` (emote_console.py:97-149). */
    method BuildGallery(fs: FsState, render: Renderer)
      modifies this
      ensures var shown := Shown(old(source), old(filterText), old(metas7), old(metatw));
        source == old(source) && filterText == old(filterText) &&
        metas7 == Kept7(source, filterText, old(metas7), old(metatw)) &&
        metatw == KeptTw(source, filterText, old(metas7), old(metatw)) &&
        cells == CellsOf(fs, render, shown) &&
        thumbRefs == RefsOf(fs, render, shown) &&
        panel == FirstPanel(old(panel), fs, render, shown)
    {
      var metas := SelectSource(source, metas7, metatw);
      var q := Query(filterText);
      if q != [] {
        metas := Filter(metas, q);
      }
      metas := SortByName(metas);
      // The sort works on the window's own list when nothing made a copy.
      if q == [] && source == "7tv" {
        metas7 := metas;
      } else if q == [] && source == "official" {
        metatw := metas;
      }
      PlaceThumbs(fs, render, metas);
      if metas != [] {
        ShowDetails(fs, render, metas[0]);
      } else {
        panel := Panel(None, NoMatchText);
      }
    }

    /** The loop of emote_console.py:119-140 over the sorted listing, from a
        cleared grid and `thumb_refs`. */
    method PlaceThumbs(fs: FsState, render: Renderer, metas: seq<EmoteRecord>)
      modifies this
      ensures cells == CellsOf(fs, render, metas) && thumbRefs == RefsOf(fs, render, metas)
      ensures source == old(source) && filterText == old(filterText) && panel == old(panel)
      ensures metas7 == old(metas7) && metatw == old(metatw)
    {
      cells := [];
      thumbRefs := map[];
      var idx := 0;
      while idx < |metas|
        invariant 0 <= idx <= |metas|
        invariant source == old(source) && filterText == old(filterText) && panel == old(panel)
        invariant metas7 == old(metas7) && metatw == old(metatw)
        invariant cells == CellsOf(fs, render, metas[..idx])
        invariant thumbRefs == RefsOf(fs, render, metas[..idx])
      {
        CellsStep(fs, render, metas, idx);
        var m := metas[idx];
        var p := MetaPath(m);
        if !fs.Exists(p) || p !in fs.files {
          idx := idx + 1;
          continue;
        }
        var pixels := render(fs.files[p], ThumbSize);
        if pixels.None? {
          idx := idx + 1;
          continue;
        }
        var img := Image(pixels.value, ThumbSize);
        thumbRefs := thumbRefs[m.name := img];
        cells := cells + [Cell(idx / GridCols, idx % GridCols, m, img)];
        idx := idx + 1;
      }
      assert metas[..idx] == metas;
    }

    /** Picking a source in the chooser rebuilds the gallery (emote_console.py:48). */
    method SetSource(fs: FsState, render: Renderer, s: string)
      modifies this
      ensures source == s && filterText == old(filterText)
      ensures var shown := Shown(s, old(filterText), old(metas7), old(metatw));
        metas7 == Kept7(s, filterText, old(metas7), old(metatw)) &&
        metatw == KeptTw(s, filterText, old(metas7), old(metatw)) &&
        cells == CellsOf(fs, render, shown) && thumbRefs == RefsOf(fs, render, shown) &&
        panel == FirstPanel(old(panel), fs, render, shown)
    {
      source := s;
      BuildGallery(fs, render);
    }

    /** Typing in the filter box rebuilds the gallery (emote_console.py:55). */
    method SetFilter(fs: FsState, render: Renderer, text: string)
      modifies this
      ensures source == old(source) && filterText == text
      ensures var shown := Shown(old(source), text, old(metas7), old(metatw));
        metas7 == Kept7(source, text, old(metas7), old(metatw)) &&
        metatw == KeptTw(source, text, old(metas7), old(metatw)) &&
        cells == CellsOf(fs, render, shown) && thumbRefs == RefsOf(fs, render, shown) &&
        panel == FirstPanel(old(panel), fs, render, shown)
    {
      filterText := text;
      BuildGallery(fs, render);
    }

    /** `_refresh_worker` then `_refresh_done` (emote_console.py:191-204): a
        pass that returned replaces its list with the records it saved, a pass
        that raised leaves its list alone, and the gallery is rebuilt. */
    method RefreshDone(fs: FsState, render: Renderer,
                       r7: Result<SyncWalk.Summary, SyncWalk.SyncError>,
                       rtw: Result<SyncWalk.Summary, SyncWalk.SyncError>)
      modifies this
      ensures source == old(source) && filterText == old(filterText)
      ensures var m7 := if r7.Ok? then r7.value.meta else old(metas7);
        var mtw := if rtw.Ok? then rtw.value.meta else old(metatw);
        var shown := Shown(source, filterText, m7, mtw);
        metas7 == Kept7(source, filterText, m7, mtw) &&
        metatw == KeptTw(source, filterText, m7, mtw) &&
        cells == CellsOf(fs, render, shown) && thumbRefs == RefsOf(fs, render, shown) &&
        panel == FirstPanel(old(panel), fs, render, shown)
    {
      if r7.Ok? {
        metas7 := r7.value.meta;
      }
      if rtw.Ok? {
        metatw := rtw.value.meta;
      }
      BuildGallery(fs, render);
    }
  }

  /** `EmoteConsole()`: read both sidecars with `_load_meta`, where a
      missing file reads as no records and any other failure is raised
      out of the constructor, then set up the window. */
  method OpenConsole(fs: FsState, render: Renderer) returns (r: Result<Gallery, LoadError>)
    ensures r.Err? <==> fs.LoadMeta(SidecarPath(Dir7tv)).Err? || fs.LoadMeta(SidecarPath(DirTwitch)).Err?
    ensures r.Ok? ==>
              var l7 := fs.LoadMeta(SidecarPath(Dir7tv)).value;
              fresh(r.value) && r.value.source == "7tv" && r.value.filterText == "" &&
              r.value.metas7 == SortByName(l7) &&
              r.value.metatw == fs.LoadMeta(SidecarPath(DirTwitch)).value &&
              r.value.cells == CellsOf(fs, render, SortByName(l7)) &&
              r.value.thumbRefs == RefsOf(fs, render, SortByName(l7))
  {
    var l7 := fs.LoadMeta(SidecarPath(Dir7tv));
    if l7.Err? {
      return Err(l7.error);
    }
    var ltw := fs.LoadMeta(SidecarPath(DirTwitch));
    if ltw.Err? {
      return Err(ltw.error);
    }
    var g := new Gallery(fs, render, l7.value, ltw.value);
    assert Query("") == [];
    return Ok(g);
  }
}
