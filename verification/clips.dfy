/**
  The background-clip planning of `src/videoclipper/videoclipper.py`:
  which files of a category folder count as videos, where a slice of a
  video ends, and how `create_clip_with_merging` fills the narration's
  duration with random slices of at most `max_videos` videos.

  Durations are exact real seconds. The media library is left out: a
  video is known only by its duration, a slice only by the video it comes
  from and its start and end, and the clip that is returned only by the
  slices it is made of. The random draws are arguments.
 */
module Clips {
  import opened Wrappers
  import opened Text
  import opened Seqs

  datatype ClipError =
    | CategoryMissing  // the category folder does not exist
    | NoVideos         // the folder holds no file with a video extension
    | NoSlices         // the loop took no slice, so `clips[0]` fails

  // ================================================================ the extension filter

  /** The extensions `get_all_videos_from_category` accepts when none are given. */
  const DefaultExtensions: seq<string> := [".mp4", ".avi", ".mov", ".mkv", ".webm"]

  /** The position of the last `c` in `s`, or -1 when there is none (`str.rfind`). */
  function LastIndex(s: string, c: char): (i: int)
    ensures -1 <= i < |s|
  {
    if s == [] then -1
    else if s[|s| - 1] == c then |s| - 1
    else LastIndex(s[..|s| - 1], c)
  }

  /** `LastIndex` finds `c`, and no `c` follows it. */
  lemma {:induction false} LastIndexIsLast(s: string, c: char)
    ensures LastIndex(s, c) >= 0 ==> s[LastIndex(s, c)] == c
    ensures forall k :: LastIndex(s, c) < k < |s| ==> s[k] != c
  {
    if s != [] && s[|s| - 1] != c {
      LastIndexIsLast(s[..|s| - 1], c);
    }
  }

  /** Whether `s` is made of dots only. */
  predicate AllDots(s: string) {
    s == [] || (s[0] == '.' && AllDots(s[1..]))
  }

  /**
    `os.path.splitext(name)[1]` for POSIX paths: from the last dot on, when
    that dot comes after the last `/` and some character other than a dot
    precedes it in the last path component; the empty string otherwise
    (so `.mp4`, a hidden file, has no extension). An extension is empty or
    starts with a dot and is shorter than the name.
   */
  function Extension(name: string): (e: string)
    ensures e != [] ==> e[0] == '.' && |e| < |name|
  {
    var sep := LastIndex(name, '/');
    var dot := LastIndex(name, '.');
    LastIndexIsLast(name, '.');
    if dot > sep && !AllDots(name[sep + 1..dot]) then name[dot..] else ""
  }

  /**
    A non-empty extension is a suffix of the name that holds no other dot
    and no `/`, and some character of the last path component before it
    is neither a dot nor a `/`.
   */
  lemma ExtensionShape(name: string)
    ensures var e := Extension(name);
            e != [] ==>
              && e == name[|name| - |e|..]
              && (forall k :: 1 <= k < |e| ==> e[k] != '.' && e[k] != '/')
              && exists k :: 0 <= k < |name| - |e| && name[k] != '.' && name[k] != '/'
                             && forall j :: k < j < |name| ==> name[j] != '/'
  {
    var sep := LastIndex(name, '/');
    var dot := LastIndex(name, '.');
    LastIndexIsLast(name, '/');
    LastIndexIsLast(name, '.');
    if dot > sep && !AllDots(name[sep + 1..dot]) {
      var e := name[dot..];
      forall k | 1 <= k < |e| ensures e[k] != '.' && e[k] != '/' {
        assert e[k] == name[dot + k];
      }
      NotAllDots(name, sep + 1, dot);
    }
  }

  /** A stretch of `s` that is not all dots holds a character other than a dot. */
  lemma {:induction false} NotAllDots(s: string, lo: nat, hi: nat)
    requires lo <= hi <= |s| && !AllDots(s[lo..hi])
    ensures exists k :: lo <= k < hi && s[k] != '.'
    decreases hi - lo
  {
    if s[lo] == '.' {
      assert s[lo..hi][1..] == s[lo + 1..hi];
      NotAllDots(s, lo + 1, hi);
    }
  }

  /** A name without a dot has no extension. */
  lemma NoDotNoExtension(name: string)
    requires forall k :: 0 <= k < |name| ==> name[k] != '.'
    ensures Extension(name) == ""
  {
    LastIndexNone(name, '.');
  }

  /** The test of the filter: the lower-cased extension is one of `exts`. */
  predicate IsVideo(name: string, exts: seq<string>) {
    Lower(Extension(name)) in exts
  }

  /**
    A stem with no dot and no `/`, followed by one of the default
    extensions in any mix of upper and lower case (`clip.MP4`), has that
    extension and is a video.
   */
  lemma DefaultVideo(stem: string, ext: string)
    requires stem != [] && forall k :: 0 <= k < |stem| ==> stem[k] != '.' && stem[k] != '/'
    requires Lower(ext) in DefaultExtensions
    ensures Extension(stem + ext) == ext
    ensures IsVideo(stem + ext, DefaultExtensions)
  {
    var low := Lower(ext);
    assert forall k :: 0 <= k < |ext| ==> low[k] == LowerChar(ext[k]);
    assert low[0] == '.' && forall k :: 1 <= k < |low| ==> low[k] != '.' && low[k] != '/';
    assert ext[0] == '.';
    var name := stem + ext;
    var dot := |stem|;
    assert name[dot] == '.';
    assert forall k :: dot < k < |name| ==> name[k] == ext[k - dot] && low[k - dot] == LowerChar(name[k]);
    assert forall k :: dot < k < |name| ==> name[k] != '.' && name[k] != '/';
    assert LastIndex(name, '.') == dot by {
      LastIndexAt(name, '.', dot);
    }
    assert LastIndex(name, '/') == -1 by {
      LastIndexNone(name, '/');
    }
    assert name[0..dot] == stem;
    assert !AllDots(stem);
    assert name[dot..] == ext;
  }

  /** When `s[i]` is `c` and no later character is, `i` is the last position of `c`. */
  lemma {:induction false} LastIndexAt(s: string, c: char, i: nat)
    requires i < |s| && s[i] == c
    requires forall k :: i < k < |s| ==> s[k] != c
    ensures LastIndex(s, c) == i
    decreases |s|
  {
    if i < |s| - 1 {
      LastIndexAt(s[..|s| - 1], c, i);
    }
  }

  /** Without any `c` there is no last position of `c`. */
  lemma {:induction false} LastIndexNone(s: string, c: char)
    requires forall k :: 0 <= k < |s| ==> s[k] != c
    ensures LastIndex(s, c) == -1
    decreases |s|
  {
    if s != [] {
      LastIndexNone(s[..|s| - 1], c);
    }
  }

  /** `os.path.join(root, name)` for POSIX paths. */
  function JoinPath(root: string, name: string): string
  {
    if StartsWith(name, "/") then name
    else if root == [] || root[|root| - 1] == '/' then root + name
    else root + "/" + name
  }

  /**
    A joined path ends with the name; unless the name is absolute it
    starts with the folder, with at most one `/` put between them.
   */
  lemma JoinPathShape(root: string, name: string)
    ensures var p := JoinPath(root, name);
            && |name| <= |p| && p[|p| - |name|..] == name
            && (!StartsWith(name, "/") ==> |root| + |name| <= |p| <= |root| + 1 + |name| && p[..|root|] == root)
  {
  }

  /** One step of `os.walk`: a folder and the names of the files directly in it. */
  datatype WalkEntry = WalkEntry(root: string, files: seq<string>)

  /** The paths of the videos among `files` of folder `root`, in order. */
  function KeptFiles(root: string, files: seq<string>, exts: seq<string>): seq<string> {
    MapFilter(files, name => IsVideo(name, exts), name => JoinPath(root, name))
  }

  /** A path is kept from a folder exactly when it joins the folder with one of its files that passes the filter. */
  lemma KeptFilesMembership(root: string, files: seq<string>, exts: seq<string>, p: string)
    ensures p in KeptFiles(root, files, exts) <==>
            exists j :: 0 <= j < |files| && IsVideo(files[j], exts) && p == JoinPath(root, files[j])
  {
    MapFilterMembership(files, name => IsVideo(name, exts), name => JoinPath(root, name), p);
  }

  /** The paths of the videos of a whole walk, folder after folder. */
  function Found(walk: seq<WalkEntry>, exts: seq<string>): seq<string> {
    if walk == [] then []
    else Found(walk[..|walk| - 1], exts) + KeptFiles(walk[|walk| - 1].root, walk[|walk| - 1].files, exts)
  }

  /** The outer loop's step: one more folder adds the videos among its files. */
  lemma FoundStep(walk: seq<WalkEntry>, exts: seq<string>, k: nat)
    requires k < |walk|
    ensures Found(walk[..k + 1], exts) == Found(walk[..k], exts) + KeptFiles(walk[k].root, walk[k].files, exts)
  {
    TakePrefix(walk, k);
  }

  /**
    The filter keeps exactly the videos: a path is found exactly when some
    folder of the walk holds a file whose extension passes and the path
    joins the two.
   */
  lemma {:induction false} FoundMembership(walk: seq<WalkEntry>, exts: seq<string>, p: string)
    ensures p in Found(walk, exts) <==>
            exists k, j :: 0 <= k < |walk| && 0 <= j < |walk[k].files|
                           && IsVideo(walk[k].files[j], exts) && p == JoinPath(walk[k].root, walk[k].files[j])
  {
    if walk != [] {
      var n := |walk| - 1;
      var init, last := walk[..n], walk[n];
      FoundMembership(init, exts, p);
      KeptFilesMembership(last.root, last.files, exts, p);
      assert Found(walk, exts) == Found(init, exts) + KeptFiles(last.root, last.files, exts);
      if p in Found(walk, exts) {
        if p in Found(init, exts) {
          var k, j :| 0 <= k < |init| && 0 <= j < |init[k].files|
                      && IsVideo(init[k].files[j], exts) && p == JoinPath(init[k].root, init[k].files[j]);
          assert walk[k] == init[k];
        } else {
          assert p in KeptFiles(last.root, last.files, exts);
          var j :| 0 <= j < |last.files| && IsVideo(last.files[j], exts) && p == JoinPath(last.root, last.files[j]);
          assert walk[n] == last;
        }
      }
      if exists k, j :: 0 <= k < |walk| && 0 <= j < |walk[k].files|
                        && IsVideo(walk[k].files[j], exts) && p == JoinPath(walk[k].root, walk[k].files[j]) {
        var k, j :| 0 <= k < |walk| && 0 <= j < |walk[k].files|
                    && IsVideo(walk[k].files[j], exts) && p == JoinPath(walk[k].root, walk[k].files[j]);
        if k < n {
          assert init[k] == walk[k];
          assert 0 <= k < |init| && 0 <= j < |init[k].files|
                 && IsVideo(init[k].files[j], exts) && p == JoinPath(init[k].root, init[k].files[j]);
        } else {
          assert k == n;
          assert 0 <= j < |last.files| && IsVideo(last.files[j], exts) && p == JoinPath(last.root, last.files[j]);
        }
      }
    }
  }

  /** The inner loop of the walk: appends the paths of the videos among `files` of folder `root`. */
  method KeepVideos(root: string, files: seq<string>, exts: seq<string>, videos: seq<string>)
    returns (out: seq<string>)
    ensures out == videos + KeptFiles(root, files, exts)
  {
    ghost var keep := name => IsVideo(name, exts);
    ghost var join := name => JoinPath(root, name);
    out := videos;
    ghost var kept: seq<string> := [];
    assert videos + kept == videos;
    var j := 0;
    while j < |files|
      invariant 0 <= j <= |files|
      invariant kept == MapFilter(files[..j], keep, join)
      invariant out == videos + kept
    {
      var name := files[j];
      var isVideo := IsVideo(name, exts);
      var path := JoinPath(root, name);
      ghost var piece := if isVideo then [path] else [];
      assert keep(name) == isVideo && join(name) == path;
      MapFilterStep(files, keep, join, j);
      AppendAssoc(videos, kept, piece);
      if isVideo {
        out := out + [path];
      } else {
        assert out + piece == out;
      }
      kept := kept + piece;
      j := j + 1;
    }
    assert files[..j] == files;
  }

  /**
    `get_all_videos_from_category`: the video files below the category
    folder, in walk order. `categoryExists` is the answer of
    `os.path.exists` and `walk` the folders `os.walk` visits.
   */
  method CollectVideos(categoryExists: bool, walk: seq<WalkEntry>, extensions: Option<seq<string>>)
    returns (r: Result<seq<string>, ClipError>)
    ensures !categoryExists ==> r == Err(CategoryMissing)
    ensures categoryExists ==>
              var exts := if extensions.None? then DefaultExtensions else extensions.value;
              r == if Found(walk, exts) == [] then Err(NoVideos) else Ok(Found(walk, exts))
  {
    var exts := if extensions.None? then DefaultExtensions else extensions.value;
    if !categoryExists {
      return Err(CategoryMissing);
    }
    var videos: seq<string> := [];
    var k := 0;
    while k < |walk|
      invariant 0 <= k <= |walk|
      invariant videos == Found(walk[..k], exts)
    {
      FoundStep(walk, exts, k);
      videos := KeepVideos(walk[k].root, walk[k].files, exts, videos);
      k := k + 1;
    }
    assert walk[..k] == walk;
    if videos == [] {
      return Err(NoVideos);
    }
    return Ok(videos);
  }

  // ================================================================ the slices

  /**
    `extract_clip_from_video`'s end: `min(start + duration, video_duration)`.
    A slice never runs past the end of its video, nor further than asked.
   */
  function ClipEnd(start: real, duration: real, videoDuration: real): (end: real)
    ensures end <= start + duration && end <= videoDuration
    ensures end == start + duration || end == videoDuration
  {
    if start + duration <= videoDuration then start + duration else videoDuration
  }

  /** A slice of video `video` of the pool, from `start` to `end` seconds. */
  datatype Slice = Slice(video: nat, start: real, end: real)

  function Length(s: Slice): real {
    s.end - s.start
  }

  /** The total length of some slices. */
  function Total(slices: seq<Slice>): real {
    if slices == [] then 0.0 else Length(slices[0]) + Total(slices[1..])
  }

  /**
    The random draws of one round: `pick` is the index `random.choice`
    returns and `u` the value of `random.random()` that `random.uniform(a, b)`
    turns into `a + (b - a) * u`.
   */
  datatype Draw = Draw(pick: nat, u: real)

  /** A draw Python can make for a pool of videos. */
  predicate DrawFor(pool: seq<real>, d: Draw) {
    d.pick < |pool| && 0.0 <= d.u < 1.0
  }

  predicate ValidDraws(pool: seq<real>, draws: seq<Draw>) {
    forall k :: 0 <= k < |draws| ==> DrawFor(pool, draws[k])
  }

  /** Every video of the pool lasts no less than zero seconds. */
  predicate ValidPool(pool: seq<real>) {
    forall k :: 0 <= k < |pool| ==> pool[k] >= 0.0
  }

  /** A slice of a video of the pool that lies within that video. */
  predicate Within(pool: seq<real>, s: Slice) {
    s.video < |pool| && 0.0 <= s.start <= s.end <= pool[s.video]
  }

  /** What one round takes: a slice, and the seconds left to fill after it. */
  datatype Taken = Taken(slice: Slice, left: real)

  /**
    One round of `create_clip_with_merging` with `remaining` seconds left
    to fill: the slice it takes of the drawn video and the seconds left
    after it.
   */
  function Round(pool: seq<real>, remaining: real, d: Draw): (r: Taken)
    requires DrawFor(pool, d)
    ensures r.slice.video == d.pick
    ensures Length(r.slice) + r.left == remaining
  {
    var duration := pool[d.pick];
    if duration >= remaining then
      var maxStart := duration - remaining;
      var start := if maxStart > 0.0 then Uniform(maxStart, d.u) else 0.0;
      Taken(Slice(d.pick, start, ClipEnd(start, remaining, duration)), 0.0)
    else
      var start := if duration > 5.0 then Uniform(duration * 0.3, d.u) else 0.0;
      var end := ClipEnd(start, duration - start, duration);
      Taken(Slice(d.pick, start, end), remaining - (end - start))
  }

  /** `random.uniform(0, b)` with the draw `u`: a point of `[0, b]`. */
  function Uniform(b: real, u: real): (x: real)
    requires b >= 0.0 && 0.0 <= u < 1.0
    ensures 0.0 <= x <= b
  {
    assert b * u <= b * 1.0;
    b * u
  }

  /** A round's slice comes from the drawn video and lies within it. */
  lemma RoundWithin(pool: seq<real>, remaining: real, d: Draw)
    requires DrawFor(pool, d) && pool[d.pick] >= 0.0 && remaining > 0.0
    ensures Round(pool, remaining, d).slice.video == d.pick
    ensures 0.0 <= Round(pool, remaining, d).slice.start <= Round(pool, remaining, d).slice.end <= pool[d.pick]
  {
    if pool[d.pick] >= remaining {
      RoundLong(pool, remaining, d);
    } else {
      RoundShort(pool, remaining, d);
    }
  }

  /**
    A video at least `remaining` seconds long gives a slice of exactly
    `remaining` seconds, starting anywhere from 0 to `duration - remaining`,
    and leaves nothing to fill.
   */
  lemma RoundLong(pool: seq<real>, remaining: real, d: Draw)
    requires DrawFor(pool, d) && pool[d.pick] >= remaining
    ensures Length(Round(pool, remaining, d).slice) == remaining
    ensures 0.0 <= Round(pool, remaining, d).slice.start <= pool[d.pick] - remaining
    ensures Round(pool, remaining, d).left == 0.0
  {
    var maxStart := pool[d.pick] - remaining;
    if maxStart > 0.0 {
      assert Round(pool, remaining, d).slice.start == Uniform(maxStart, d.u);
    }
  }

  /**
    A shorter video gives a slice that runs to its end, starting at 0 when
    the video lasts at most 5 seconds and within its first 30% otherwise;
    the time left drops by exactly the slice's length and stays above zero.
   */
  lemma RoundShort(pool: seq<real>, remaining: real, d: Draw)
    requires DrawFor(pool, d) && 0.0 <= pool[d.pick] < remaining
    ensures Round(pool, remaining, d).slice.end == pool[d.pick]
    ensures pool[d.pick] <= 5.0 ==> Round(pool, remaining, d).slice.start == 0.0
    ensures pool[d.pick] > 5.0 ==> 0.0 <= Round(pool, remaining, d).slice.start <= 0.3 * pool[d.pick]
    ensures Round(pool, remaining, d).left == remaining - Length(Round(pool, remaining, d).slice)
    ensures Round(pool, remaining, d).left > 0.0
  {
    var duration := pool[d.pick];
    if duration > 5.0 {
      assert Round(pool, remaining, d).slice.start == Uniform(duration * 0.3, d.u);
    }
  }

  /** The number of rounds `max_videos` allows. */
  function Budget(maxVideos: int): nat {
    if maxVideos > 0 then maxVideos else 0
  }

  /** What the loop takes: its slices in order, and the seconds left when it stops. */
  datatype Fill = Fill(slices: seq<Slice>, left: real)

  /**
    The loop from round `i` on, with `remaining` seconds left and `limit`
    rounds allowed in all: it stops once at most 0.1 seconds are left or
    the rounds run out.
   */
  function FillFrom(pool: seq<real>, remaining: real, draws: seq<Draw>, i: nat, limit: nat): Fill
    requires ValidDraws(pool, draws) && limit <= |draws|
    decreases limit - i
  {
    if remaining <= 0.1 || i >= limit then Fill([], remaining)
    else
      var round := Round(pool, remaining, draws[i]);
      var rest := FillFrom(pool, round.left, draws, i + 1, limit);
      Fill([round.slice] + rest.slices, rest.left)
  }

  /**
    The loop's step: when `acc` followed by the slices from round `i` make
    up `all`'s slices, so do `acc` with the slice of round `i` and the
    slices from round `i + 1`, and the time left at the end is the same.
   */
  lemma FillStep(pool: seq<real>, remaining: real, draws: seq<Draw>, i: nat, limit: nat, acc: seq<Slice>, all: Fill)
    requires ValidDraws(pool, draws) && limit <= |draws|
    requires remaining > 0.1 && i < limit
    requires acc + FillFrom(pool, remaining, draws, i, limit).slices == all.slices
    requires FillFrom(pool, remaining, draws, i, limit).left == all.left
    ensures (acc + [Round(pool, remaining, draws[i]).slice])
            + FillFrom(pool, Round(pool, remaining, draws[i]).left, draws, i + 1, limit).slices == all.slices
    ensures FillFrom(pool, Round(pool, remaining, draws[i]).left, draws, i + 1, limit).left == all.left
  {
    var round := Round(pool, remaining, draws[i]);
    AppendAssoc(acc, [round.slice], FillFrom(pool, round.left, draws, i + 1, limit).slices);
  }

  /** No time is lost: the slices' total length and the time left add up to the time there was to fill. */
  lemma {:induction false} FillConservation(pool: seq<real>, remaining: real, draws: seq<Draw>, i: nat, limit: nat)
    requires ValidDraws(pool, draws) && limit <= |draws| && ValidPool(pool)
    ensures Total(FillFrom(pool, remaining, draws, i, limit).slices) + FillFrom(pool, remaining, draws, i, limit).left == remaining
    decreases limit - i
  {
    if remaining > 0.1 && i < limit {
      var round := Round(pool, remaining, draws[i]);
      if pool[draws[i].pick] >= remaining {
        RoundLong(pool, remaining, draws[i]);
      } else {
        RoundShort(pool, remaining, draws[i]);
      }
      FillConservation(pool, round.left, draws, i + 1, limit);
      var r := FillFrom(pool, remaining, draws, i, limit);
      assert r.slices[0] == round.slice && r.slices[1..] == FillFrom(pool, round.left, draws, i + 1, limit).slices;
    }
  }

  /**
    The loop takes one slice per round and at most `limit - i` of them, and
    it stops before the rounds run out only when at most 0.1 seconds are
    left.
   */
  lemma {:induction false} FillRounds(pool: seq<real>, remaining: real, draws: seq<Draw>, i: nat, limit: nat)
    requires ValidDraws(pool, draws) && limit <= |draws| && i <= limit
    ensures |FillFrom(pool, remaining, draws, i, limit).slices| <= limit - i
    ensures |FillFrom(pool, remaining, draws, i, limit).slices| < limit - i ==> FillFrom(pool, remaining, draws, i, limit).left <= 0.1
    decreases limit - i
  {
    if remaining > 0.1 && i < limit {
      var round := Round(pool, remaining, draws[i]);
      FillRounds(pool, round.left, draws, i + 1, limit);
    }
  }

  /** Every slice of the plan comes from a video of the pool and lies within that video. */
  lemma {:induction false} FillWithin(pool: seq<real>, remaining: real, draws: seq<Draw>, i: nat, limit: nat)
    requires ValidDraws(pool, draws) && limit <= |draws| && ValidPool(pool)
    ensures forall k :: 0 <= k < |FillFrom(pool, remaining, draws, i, limit).slices| ==>
              Within(pool, FillFrom(pool, remaining, draws, i, limit).slices[k])
    decreases limit - i
  {
    if remaining > 0.1 && i < limit {
      var round := Round(pool, remaining, draws[i]);
      RoundWithin(pool, remaining, draws[i]);
      FillWithin(pool, round.left, draws, i + 1, limit);
      var slices := FillFrom(pool, remaining, draws, i, limit).slices;
      var rest := FillFrom(pool, round.left, draws, i + 1, limit).slices;
      forall k | 0 <= k < |slices| ensures Within(pool, slices[k]) {
        if k > 0 { assert slices[k] == rest[k - 1]; }
      }
    }
  }

  // ================================================================ the plan

  /** The clip `create_clip_with_merging` returns: one slice as it is, or several concatenated in order. */
  datatype Clip = Single(slice: Slice) | Concat(slices: seq<Slice>)

  /** The clip, the seconds left unfilled, and whether the shortfall warning is logged. */
  datatype Plan = Plan(clip: Clip, remaining: real, shortfall: bool)

  /**
    The end of `create_clip_with_merging` once the loop has taken its
    slices: no slice is an error; one slice is the clip itself; several
    are concatenated in the order taken. The plan keeps the seconds left
    and warns exactly when more than 0.1 of them are.
   */
  function PlanOf(fill: Fill): (r: Result<Plan, ClipError>)
    ensures r.Err? <==> fill.slices == []
    ensures r.Err? ==> r.error == NoSlices
    ensures r.Ok? ==> r.value.remaining == fill.left && r.value.shortfall == (fill.left > 0.1)
    ensures r.Ok? ==> match r.value.clip
                      case Single(s) => fill.slices == [s]
                      case Concat(ss) => ss == fill.slices && |ss| > 1
  {
    if |fill.slices| > 1 then Ok(Plan(Concat(fill.slices), fill.left, fill.left > 0.1))
    else if |fill.slices| == 1 then Ok(Plan(Single(fill.slices[0]), fill.left, fill.left > 0.1))
    else Err(NoSlices)
  }

  /**
    `create_clip_with_merging` on a pool of video durations with the
    random draws given: takes slices until at most 0.1 seconds of
    `required` are left or `max_videos` videos have been drawn.
   */
  method AssemblePlan(pool: seq<real>, required: real, maxVideos: int, draws: seq<Draw>)
    returns (r: Result<Plan, ClipError>)
    requires pool != [] && ValidPool(pool) && ValidDraws(pool, draws) && Budget(maxVideos) <= |draws|
    ensures r == PlanOf(FillFrom(pool, required, draws, 0, Budget(maxVideos)))
  {
    ghost var limit := Budget(maxVideos);
    ghost var all := FillFrom(pool, required, draws, 0, limit);
    var slices: seq<Slice> := [];
    var remaining := required;
    var count := 0;
    assert slices + all.slices == all.slices;
    while remaining > 0.1 && count < maxVideos
      invariant 0 <= count <= limit
      invariant slices + FillFrom(pool, remaining, draws, count, limit).slices == all.slices
      invariant FillFrom(pool, remaining, draws, count, limit).left == all.left
      decreases limit - count
    {
      var d := draws[count];
      FillStep(pool, remaining, draws, count, limit, slices, all);
      ghost var round := Round(pool, remaining, d);
      count := count + 1;
      var duration := pool[d.pick];
      var slice: Slice;
      if duration >= remaining {
        var maxStart := duration - remaining;
        var start := if maxStart > 0.0 then Uniform(maxStart, d.u) else 0.0;
        slice := Slice(d.pick, start, ClipEnd(start, remaining, duration));
        remaining := 0.0;
      } else {
        var start := if duration > 5.0 then Uniform(duration * 0.3, d.u) else 0.0;
        slice := Slice(d.pick, start, ClipEnd(start, duration - start, duration));
        remaining := remaining - Length(slice);
      }
      assert slice == round.slice && remaining == round.left;
      slices := slices + [slice];
    }
    assert slices + [] == slices;
    if |slices| > 1 {
      r := Ok(Plan(Concat(slices), remaining, remaining > 0.1));
    } else if |slices| == 1 {
      r := Ok(Plan(Single(slices[0]), remaining, remaining > 0.1));
    } else {
      r := Err(NoSlices);
    }
  }
}
