/**
 * The run controller: the tag list computed from a metadata lookup, the
 * writes that put it on an album, the already-tagged check, and the
 * per-album decisions of the main loop. The metadata lookup is a function
 * parameter and each album's remote tag set is a value.
 */
module Controller {
  import opened Wrappers
  import opened Text
  import opened Sanitizer

  /** The options that steer tagging, fixed for the whole run. */
  datatype Config = Config(
    removeTags: bool,      // `--keep` not given
    useDescriptors: bool,  // `--no-descriptors` not given
    autoTag: bool,         // `--no-auto-tag` not given
    skipAutoTagged: bool,  // `--no-auto-skip` not given
    dryRun: bool,          // `--dry`
    skipIndex: int         // `--skip`
  )

  /** A match from the metadata source: two free-text fields, either of which may be absent. */
  datatype RymAlbum = RymAlbum(genres: Option<string>, descriptors: Option<string>)

  /** An album of the user's chart, with the names of the tags it carries now. */
  datatype Album = Album(artist: string, title: string, tags: set<string>)

  /** One call to the tagging service's write interface. */
  datatype Write = RemoveTags(removed: set<string>) | AddTag(name: string) | AddTags(names: seq<string>)

  /** How processing one album ended. */
  datatype Outcome = NotReached | Skipped | TaggedDirect | TaggedFallback | NotFound

  /** What processing one album did: how it ended, the lookups it made, the writes it issued. */
  datatype Step = Step(outcome: Outcome, queries: seq<string>, writes: seq<Write>)

  /** The marker tag that records an album as processed. */
  const Sentinel: string := "auto-tagged"

  /**
   * The metadata query for an album: `"<artist> - <title>"`. The artist
   * and the title can be read back from their positions.
   */
  function Query(artist: string, title: string): (q: string)
    ensures |q| == |artist| + 3 + |title|
    ensures q[..|artist|] == artist && q[|artist|..|artist| + 3] == " - " && q[|artist| + 3..] == title
  {
    artist + " - " + title
  }

  function SetOf(names: seq<string>): set<string> {
    set t | t in names
  }

  // ========================================================= computed tags

  /**
   * The split-and-clean part of `get_tags`: the cleaned pieces of the
   * genres field, followed by the cleaned pieces of the descriptors field
   * when descriptors are used. No match, a missing genres field, or a
   * missing descriptors field that is needed is a failure.
   */
  function ComputeTags(useDescriptors: bool, found: Option<RymAlbum>): (r: Option<seq<string>>)
    ensures r.Some? <==>
      found.Some? && found.value.genres.Some? && (useDescriptors ==> found.value.descriptors.Some?)
    ensures r.Some? ==> forall k :: 0 <= k < |r.value| ==> IsTag(r.value[k])
    ensures r.Some? ==>
      |r.value| == SepCount(found.value.genres.value) + 1
        + (if useDescriptors then SepCount(found.value.descriptors.value) + 1 else 0)
    ensures r.Some? ==>
      r.value == CleanTags(SplitFields(found.value.genres.value)
        + (if useDescriptors then SplitFields(found.value.descriptors.value) else []))
  {
    match found
    case None => None
    case Some(rym) =>
      if rym.genres.None? then None
      else
        var g := SplitFields(rym.genres.value);
        if !useDescriptors then
          assert g + [] == g;
          Some(CleanTags(g))
        else if rym.descriptors.None? then None
        else
          var d := SplitFields(rym.descriptors.value);
          CleanTagsAppend(g, d);
          Some(CleanTags(g) + CleanTags(d))
  }

  // ================================================================ writes

  function ApplyWrite(tags: set<string>, w: Write): set<string> {
    match w
    case RemoveTags(removed) => tags - removed
    case AddTag(name) => tags + {name}
    case AddTags(names) => tags + SetOf(names)
  }

  /** The tag set left after the writes are performed in order. */
  function ApplyWrites(tags: set<string>, ws: seq<Write>): set<string>
    decreases |ws|
  {
    if ws == [] then tags else ApplyWrites(ApplyWrite(tags, ws[0]), ws[1..])
  }

  lemma {:induction false} ApplyWritesAppend(tags: set<string>, a: seq<Write>, b: seq<Write>)
    ensures ApplyWrites(tags, a + b) == ApplyWrites(ApplyWrites(tags, a), b)
    decreases |a|
  {
    if a != [] {
      assert (a + b)[1..] == a[1..] + b;
      ApplyWritesAppend(ApplyWrite(tags, a[0]), a[1..], b);
    } else {
      assert a + b == b;
    }
  }

  /**
   * The tag set `tag_album` leaves on an album that is written: the old
   * tags unless they are removed, the marker tag if it is added, and the
   * computed tags.
   */
  function TaggedSet(cfg: Config, current: set<string>, computed: seq<string>): set<string> {
    (if cfg.removeTags then {} else current) + (if cfg.autoTag then {Sentinel} else {}) + SetOf(computed)
  }

  /**
   * `tag_album`: with a dry run, no write at all; otherwise remove the
   * current tags (unless they are kept), add the marker tag (if enabled),
   * then add the computed tags.
   */
  function TagWrites(cfg: Config, current: set<string>, computed: seq<string>): (ws: seq<Write>)
    ensures cfg.dryRun <==> ws == []
    ensures !cfg.dryRun ==> |ws| == (if cfg.removeTags then 1 else 0) + (if cfg.autoTag then 1 else 0) + 1
    ensures !cfg.dryRun ==> ws[|ws| - 1] == AddTags(computed)
    ensures !cfg.dryRun ==> (cfg.removeTags <==> ws[0] == RemoveTags(current))
    ensures !cfg.dryRun ==> (cfg.autoTag <==> AddTag(Sentinel) in ws)
    ensures ApplyWrites(current, ws) == if cfg.dryRun then current else TaggedSet(cfg, current, computed)
  {
    if cfg.dryRun then []
    else
      var remove: seq<Write> := if cfg.removeTags then [RemoveTags(current)] else [];
      var mark: seq<Write> := if cfg.autoTag then [AddTag(Sentinel)] else [];
      var ws := remove + mark + [AddTags(computed)];
      ApplyWritesAppend(current, remove + mark, [AddTags(computed)]);
      ApplyWritesAppend(current, remove, mark);
      ws
  }

  /**
   * `already_tagged`: with skipping enabled, some tag of the album has the
   * marker tag's name as a substring.
   */
  function AlreadyTagged(cfg: Config, tags: set<string>): (b: bool)
    ensures b ==> cfg.skipAutoTagged
    ensures b ==> exists t :: t in tags && |t| >= |Sentinel|
    ensures cfg.skipAutoTagged && Sentinel in tags ==> b
  {
    assert OccursAt(Sentinel, Sentinel, 0);
    cfg.skipAutoTagged && exists t :: t in tags && Occurs(Sentinel, t)
  }

  /**
   * The check is a substring test, not an equality test: a tag that merely
   * contains the marker's name also counts.
   */
  lemma AlreadyTaggedContains(cfg: Config, tags: set<string>, before: string, after: string)
    requires cfg.skipAutoTagged && before + Sentinel + after in tags
    ensures AlreadyTagged(cfg, tags)
  {
    var t := before + Sentinel + after;
    assert t[|before|..|before| + |Sentinel|] == Sentinel;
    assert OccursAt(Sentinel, t, |before|);
  }

  /**
   * Only a tag containing the marker's name counts: an album counts as
   * already tagged only if skipping is on and some tag holds the marker
   * between a prefix and a suffix.
   */
  lemma AlreadyTaggedOnlyIfContains(cfg: Config, tags: set<string>)
    requires AlreadyTagged(cfg, tags)
    ensures cfg.skipAutoTagged
    ensures exists t, before, after :: t in tags && t == before + Sentinel + after
  {
    var t :| t in tags && Occurs(Sentinel, t);
    var i :| 0 <= i <= |t| - |Sentinel| && OccursAt(Sentinel, t, i);
    assert t == t[..i] + Sentinel + t[i + |Sentinel|..];
  }

  /** Without a tag as long as the marker's name, nothing counts as already tagged. */
  lemma AlreadyTaggedNeedsLongTag(cfg: Config, tags: set<string>)
    requires forall t :: t in tags ==> |t| < |Sentinel|
    ensures !AlreadyTagged(cfg, tags)
  {
  }

  /** Tagging with the marker makes the album count as already tagged. */
  lemma MarkerMakesAlreadyTagged(cfg: Config, current: set<string>, computed: seq<string>)
    requires cfg.autoTag && cfg.skipAutoTagged && !cfg.dryRun
    ensures AlreadyTagged(cfg, ApplyWrites(current, TagWrites(cfg, current, computed)))
  {
    assert OccursAt(Sentinel, Sentinel, 0);
  }

  // ============================================================ main loop

  /** The lookups made for one album and the tags the last of them produced. */
  datatype Attempt = Attempt(queries: seq<string>, found: Option<seq<string>>)

  /**
   * The lookup part of the main loop: look the album up by its raw title
   * and, only if that fails, once more by its cleaned title.
   */
  function LookupWithRetry(useDescriptors: bool, lookup: string -> Option<RymAlbum>, album: Album): (a: Attempt)
    ensures 1 <= |a.queries| <= 2
    ensures a.queries[0] == Query(album.artist, album.title)
    ensures |a.queries| == 2 <==> ComputeTags(useDescriptors, lookup(a.queries[0])).None?
    ensures |a.queries| == 2 ==> a.queries[1] == Query(album.artist, CleanAlbumTitle(album.title))
    ensures a.found == ComputeTags(useDescriptors, lookup(a.queries[|a.queries| - 1]))
  {
    var raw := Query(album.artist, album.title);
    var first := ComputeTags(useDescriptors, lookup(raw));
    if first.Some? then Attempt([raw], first)
    else
      var cleaned := Query(album.artist, CleanAlbumTitle(album.title));
      Attempt([raw, cleaned], ComputeTags(useDescriptors, lookup(cleaned)))
  }

  /** The album is found exactly when the raw-title or the cleaned-title lookup yields tags. */
  lemma LookupWithRetryFinds(useDescriptors: bool, lookup: string -> Option<RymAlbum>, album: Album)
    ensures LookupWithRetry(useDescriptors, lookup, album).found.Some? <==>
      ComputeTags(useDescriptors, lookup(Query(album.artist, album.title))).Some?
      || ComputeTags(useDescriptors, lookup(Query(album.artist, CleanAlbumTitle(album.title)))).Some?
  {
  }

  /**
   * For a title that cleaning leaves unchanged, the retry repeats the first
   * query word for word and so cannot succeed where the first failed.
   */
  lemma RetryOfCleanTitleRepeats(useDescriptors: bool, lookup: string -> Option<RymAlbum>, album: Album)
    requires CleanAlbumTitle(album.title) == album.title
    ensures var a := LookupWithRetry(useDescriptors, lookup, album);
      |a.queries| == 2 ==> a.queries[1] == a.queries[0] && a.found.None?
  {
  }

  /**
   * One pass of the main loop for the album at 0-based index `i`: the skip
   * gate, the already-tagged check, the lookup with one retry, then the
   * writes of `tag_album`.
   */
  function ProcessAlbum(cfg: Config, lookup: string -> Option<RymAlbum>, i: nat, album: Album): (st: Step)
    ensures st.outcome == NotReached <==> i + 1 < cfg.skipIndex
    ensures st.outcome == Skipped <==> i + 1 >= cfg.skipIndex && AlreadyTagged(cfg, album.tags)
    ensures st.outcome == NotReached || st.outcome == Skipped ==> st.queries == [] && st.writes == []
    ensures st.outcome != NotReached && st.outcome != Skipped ==>
      var a := LookupWithRetry(cfg.useDescriptors, lookup, album);
      && st.queries == a.queries
      && (st.outcome == NotFound <==> a.found.None?)
      && (st.outcome == TaggedFallback <==> a.found.Some? && |a.queries| == 2)
      && st.writes == (if a.found.Some? then TagWrites(cfg, album.tags, a.found.value) else [])
    ensures cfg.dryRun ==> st.writes == []
  {
    if i + 1 < cfg.skipIndex then Step(NotReached, [], [])
    else if AlreadyTagged(cfg, album.tags) then Step(Skipped, [], [])
    else
      var a := LookupWithRetry(cfg.useDescriptors, lookup, album);
      if a.found.None? then Step(NotFound, a.queries, [])
      else if |a.queries| == 1 then Step(TaggedDirect, a.queries, TagWrites(cfg, album.tags, a.found.value))
      else Step(TaggedFallback, a.queries, TagWrites(cfg, album.tags, a.found.value))
  }

  /**
   * Once an album has been tagged with the marker, processing it again
   * makes no lookup and no write.
   */
  lemma RerunSkipsTagged(cfg: Config, lookup: string -> Option<RymAlbum>, i: nat, album: Album)
    requires cfg.autoTag && cfg.skipAutoTagged && !cfg.dryRun
    requires ProcessAlbum(cfg, lookup, i, album).writes != []
    ensures
      var after := album.(tags := ApplyWrites(album.tags, ProcessAlbum(cfg, lookup, i, album).writes));
      var again := ProcessAlbum(cfg, lookup, i, after);
      again.outcome == Skipped && again.queries == [] && again.writes == []
  {
    var found := LookupWithRetry(cfg.useDescriptors, lookup, album).found;
    MarkerMakesAlreadyTagged(cfg, album.tags, found.value);
  }

  /** One iteration of a loop over the chart: the pass `pass` makes over the next album. */
  method ProcessNext(pass: (nat, Album) -> Step, albums: seq<Album>, steps: seq<Step>) returns (steps': seq<Step>)
    requires |steps| < |albums|
    requires forall k :: 0 <= k < |steps| ==> steps[k] == pass(k, albums[k])
    ensures |steps'| == |steps| + 1
    ensures forall k :: 0 <= k < |steps'| ==> steps'[k] == pass(k, albums[k])
  {
    steps' := steps + [pass(|steps|, albums[|steps|])];
  }

  /**
   * The main loop over the chart: every album is processed in order at
   * its 0-based index; the albums before the skip index are not reached;
   * a dry run issues no write for any album, so every album keeps its tags.
   */
  method RunAll(cfg: Config, lookup: string -> Option<RymAlbum>, albums: seq<Album>) returns (steps: seq<Step>)
    ensures |steps| == |albums|
    ensures forall k :: 0 <= k < |albums| ==> steps[k] == ProcessAlbum(cfg, lookup, k, albums[k])
    ensures forall k :: 0 <= k < |albums| ==> (steps[k].outcome == NotReached <==> k + 1 < cfg.skipIndex)
    ensures cfg.dryRun ==> forall k :: 0 <= k < |albums| ==> ApplyWrites(albums[k].tags, steps[k].writes) == albums[k].tags
  {
    var pass := (k: nat, album: Album) => ProcessAlbum(cfg, lookup, k, album);
    steps := [];
    while |steps| < |albums|
      invariant |steps| <= |albums|
      invariant forall k :: 0 <= k < |steps| ==> steps[k] == pass(k, albums[k])
      decreases |albums| - |steps|
    {
      steps := ProcessNext(pass, albums, steps);
    }
  }
}
