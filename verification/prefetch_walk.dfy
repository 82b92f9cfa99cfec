/** The prefetch walk as a program: the loop over the recordings and its
    single step, proved against the walk states of module Prefetch. */
module PrefetchWalk {
  import opened Base
  import opened Catalog
  import opened Prefetch

  /** One iteration of the walk: skip a recording whose thumbnail exists;
      otherwise show its progress message, open its file and fetch its
      preview. */
  method VisitRecording(t: KeyTemplate, recs: seq<Recording>, cache: map<string, Thumb>, failOn: Option<nat>,
                        i: nat, cache': map<string, Thumb>, progress: seq<nat>, shown: seq<string>)
    returns (cache'': map<string, Thumb>, progress': seq<nat>, shown': seq<string>, failed: bool)
    requires i < |recs|
    requires WalkedTo(t, recs, cache, failOn, i, cache', progress)
    requires Announces(shown, progress, |recs|)
    ensures !failed ==> WalkedTo(t, recs, cache, failOn, i + 1, cache'', progress')
    ensures failed ==> AbortedAt(t, recs, cache, failOn, i + 1, cache'', progress')
    ensures Announces(shown', progress', |recs|)
  {
    var rec := recs[i];
    var key := ThumbnailKey(t, rec.filename);
    if key in cache' {
      SkipKeepsWalk(t, recs, cache, failOn, i, cache', progress);
      return cache', progress, shown, false;
    }
    progress' := progress + [i + 1];
    shown' := shown + [ProgressMessage(i + 1, |recs|)];
    AnnounceStep(shown, progress, i + 1, |recs|);
    if failOn == Some(|progress|) {
      FetchAbortsWalk(t, recs, cache, failOn, i, cache', progress);
      cache'' := cache'[key := Truncated];
      failed := true;
    } else {
      FetchKeepsWalk(t, recs, cache, failOn, i, cache', progress);
      cache'' := cache'[key := Preview(rec.filename)];
      failed := false;
    }
  }

  /** The loop over the recordings, stopping at the first fetch that raises;
      `stop` is the 1-based position of that fetch. */
  method Walk(t: KeyTemplate, recs: seq<Recording>, cache: map<string, Thumb>, failOn: Option<nat>)
    returns (cache': map<string, Thumb>, progress: seq<nat>, shown: seq<string>, aborted: bool, stop: nat)
    ensures !aborted ==> WalkedTo(t, recs, cache, failOn, |recs|, cache', progress)
    ensures aborted ==> AbortedAt(t, recs, cache, failOn, stop, cache', progress)
    ensures Announces(shown, progress, |recs|)
  {
    cache' := cache;
    progress, shown := [], [];
    var i := 0;
    while i < |recs|
      invariant 0 <= i <= |recs|
      invariant WalkedTo(t, recs, cache, failOn, i, cache', progress)
      invariant Announces(shown, progress, |recs|)
    {
      var failed;
      cache', progress, shown, failed := VisitRecording(t, recs, cache, failOn, i, cache', progress, shown);
      if failed {
        return cache', progress, shown, true, i + 1;
      }
      i := i + 1;
    }
    aborted, stop := false, 0;
  }

  /** The walk itself. `failOn` is the ordinal of the first fetch that
      raises, if any: the file has already been opened for writing, so an
      empty entry is left under its key, and the exception ends the walk.
      `shown` holds only the progress texts; the idle status that every
      exit path shows afterwards is not included. */
  method PrefetchThumbnails(recs: seq<Recording>, cache: map<string, Thumb>, failOn: Option<nat>)
    returns (cache': map<string, Thumb>, progress: seq<nat>, shown: seq<string>, aborted: bool)
    ensures aborted <==> failOn.Some? && failOn.value < |Candidates(Template, recs, cache, |recs|)|
    ensures !aborted ==> progress == Candidates(Template, recs, cache, |recs|)
    ensures aborted ==> progress == Candidates(Template, recs, cache, |recs|)[..failOn.value + 1]
    ensures forall j :: 0 <= j < |progress| ==> 1 <= progress[j] <= |recs|
    ensures forall k :: k in cache ==> k in cache' && cache'[k] == cache[k]
    ensures !aborted ==> cache'.Keys == cache.Keys + KeysUpTo(Template, recs, |recs|)
    ensures !aborted ==> forall k :: k in cache' && k !in cache ==> cache'[k] == Preview(FilenameOfKey(Template, k))
    ensures aborted ==> |progress| > 0 && AbortedAt(Template, recs, cache, failOn, progress[|progress| - 1], cache', progress)
    ensures Announces(shown, progress, |recs|)
    ensures forall a, b :: 0 <= a < b < |shown| ==> shown[a] != shown[b]
  {
    var stop;
    cache', progress, shown, aborted, stop := Walk(Template, recs, cache, failOn);
    if aborted {
      AbortedWalk(Template, recs, cache, failOn, stop, cache', progress);
    } else {
      FinishedWalk(Template, recs, cache, failOn, cache', progress);
    }
    CandidatesSpec(Template, recs, cache, |recs|);
    AnnouncementsDistinct(shown, progress, |recs|);
  }
}
