/**
 * The state of the Hero section: the playback cursor, the transition flag,
 * the loading flag, and the loaded count and video pool that `useVideoPool`
 * owns. React state setters and effects are modelled as sequential updates
 * of the fields, each effect running right after the state it depends on
 * changes.
 */
module HeroSection {
  import opened Cursor
  import opened Preload

  datatype Option<T> = None | Some(value: T)

  class Hero {
    /** How many hero videos there are (`totalVideos`; 4 in the page). */
    const totalVideos: int

    var currentIndex: int
    var hasClicked: bool
    var isLoading: bool
    var loadedCount: nat
    var videoPool: map<int, ObjectUrl>

    /** Number of clicks on the preview so far. */
    ghost var clicks: nat
    /** Whether the mount-time preload pass has run. */
    ghost var preloadDone: bool
    /** The indices whose videos were requested, in request order. */
    ghost var fetched: seq<int>
    /** The indices reported to the console as failed, in report order. */
    ghost var errorLog: seq<int>

    ghost predicate Valid()
      reads this
    {
      && totalVideos >= 1
      && 1 <= currentIndex <= totalVideos
      && currentIndex == Advance(1, totalVideos, clicks)
      && (hasClicked <==> clicks > 0)
      && (isLoading <==> loadedCount < totalVideos)
      && loadedCount <= totalVideos
      && |videoPool| == loadedCount
      && (forall i :: i in videoPool ==> 1 <= i <= totalVideos)
      && (!preloadDone ==> videoPool == map[] && fetched == [] && errorLog == [])
    }

    /** Mounting the component: cursor on the first video, no click yet,
        loading, and an empty pool with nothing loaded. */
    constructor (n: int)
      requires n >= 1
      ensures Valid() && totalVideos == n
      ensures currentIndex == 1 && !hasClicked && isLoading
      ensures loadedCount == 0 && videoPool == map[]
      ensures clicks == 0 && !preloadDone && fetched == [] && errorLog == []
    {
      totalVideos := n;
      currentIndex := 1;
      hasClicked := false;
      isLoading := true;
      loadedCount := 0;
      videoPool := map[];
      clicks := 0;
      preloadDone := false;
      fetched := [];
      errorLog := [];
    }

    /** The video stored for `index`, absent when its load failed or the
        pool has not been published yet. */
    function GetVideoSource(index: int): (r: Option<ObjectUrl>)
      reads this
      requires Valid()
      ensures !preloadDone ==> r == None
      ensures r.Some? ==> 1 <= index <= totalVideos
      ensures r.Some? <==> index in videoPool
      ensures r.Some? ==> r.value == videoPool[index]
    {
      if index in videoPool then Some(videoPool[index]) else None
    }

    /** The video shown in the preview: the one the next click moves to,
        which is another video whenever there is more than one. */
    function UpcomingVideoIndex(): (r: int)
      reads this
      requires Valid()
      ensures 1 <= r <= totalVideos
      ensures r == Advance(1, totalVideos, clicks + 1)
      ensures r != currentIndex <==> totalVideos > 1
    {
      Successor(currentIndex, totalVideos)
    }

    /** A click on the preview: flags the transition and moves the cursor
        to its successor; the pool, the count and the loading flag stay. */
    method HandleMiniClick()
      requires Valid()
      modifies this`hasClicked, this`currentIndex, this`clicks
      ensures Valid()
      ensures hasClicked
      ensures currentIndex == Successor(old(currentIndex), totalVideos)
      ensures clicks == old(clicks) + 1
      ensures videoPool == old(videoPool) && loadedCount == old(loadedCount)
      ensures isLoading == old(isLoading)
    {
      AdvanceStep(1, totalVideos, clicks);
      hasClicked := true;
      currentIndex := Successor(currentIndex, totalVideos);
      clicks := clicks + 1;
    }

    /** The effect on `loadedCount`: once every video has loaded, the
        loading overlay goes away; it is never brought back. */
    method LoadingEffect()
      modifies this`isLoading
      ensures isLoading == (old(isLoading) && loadedCount < totalVideos)
    {
      if loadedCount >= totalVideos {
        isLoading := false;
      }
    }

    /** One iteration of the preload loop for index `i`: request the video;
        on success store its URL in the local pool under `i`, count it and
        run the loading effect; on failure log `i` and leave pool and count. */
    method AttemptLoad(pool: map<int, ObjectUrl>, i: int, outcome: LoadOutcome)
      returns (pool': map<int, ObjectUrl>)
      modifies this`loadedCount, this`isLoading, this`fetched, this`errorLog
      ensures fetched == old(fetched) + [i]
      ensures outcome.Loaded? ==> pool' == pool[i := outcome.url]
      ensures outcome.Loaded? ==> loadedCount == old(loadedCount) + 1
      ensures outcome.Loaded? ==> errorLog == old(errorLog)
      ensures outcome.Failed? ==> pool' == pool && loadedCount == old(loadedCount)
      ensures outcome.Failed? ==> errorLog == old(errorLog) + [i]
      ensures outcome.Loaded? ==> isLoading == (old(isLoading) && loadedCount < totalVideos)
      ensures outcome.Failed? ==> isLoading == old(isLoading)
    {
      fetched := fetched + [i];
      match outcome
      case Loaded(url) =>
        pool' := pool[i := url];
        loadedCount := loadedCount + 1;
        LoadingEffect();
      case Failed =>
        pool' := pool;
        errorLog := errorLog + [i];
    }

    /** The `for` loop of the preload pass: tries 1..totalVideos in
        ascending order, one at a time, and counts each success as it
        happens. It works on a local pool: `videoPool` is outside its frame,
        so the published pool stays as it was until the loop has finished. */
    method PreloadLoop(attempt: int -> LoadOutcome) returns (pool: map<int, ObjectUrl>)
      requires totalVideos >= 1 && loadedCount == 0 && isLoading
      requires fetched == [] && errorLog == []
      modifies this`loadedCount, this`isLoading, this`fetched, this`errorLog
      ensures pool == PoolAfter(attempt, totalVideos)
      ensures loadedCount == SuccessCount(attempt, totalVideos)
      ensures isLoading == (loadedCount < totalVideos)
      ensures |fetched| == totalVideos
      ensures forall j :: 0 <= j < |fetched| ==> fetched[j] == j + 1
      ensures errorLog == FailedIndices(attempt, totalVideos)
    {
      pool := map[];
      for i := 1 to totalVideos + 1
        invariant pool == PoolAfter(attempt, i - 1)
        invariant loadedCount == SuccessCount(attempt, i - 1)
        invariant isLoading == (loadedCount < totalVideos)
        invariant |fetched| == i - 1
        invariant forall j :: 0 <= j < |fetched| ==> fetched[j] == j + 1
        invariant errorLog == FailedIndices(attempt, i - 1)
      {
        pool := AttemptLoad(pool, i, attempt(i));
      }
    }

    /** The mount-time preload pass `loadVideos`: the loop, then the pool
        published once. The pool then holds exactly the videos that loaded,
        and the overlay is gone exactly when none failed. */
    method LoadVideos(attempt: int -> LoadOutcome)
      requires Valid() && !preloadDone
      modifies this`loadedCount, this`isLoading, this`fetched, this`errorLog
      modifies this`videoPool, this`preloadDone
      ensures Valid() && preloadDone
      ensures videoPool == PoolAfter(attempt, totalVideos)
      ensures loadedCount == SuccessCount(attempt, totalVideos)
      ensures isLoading <==> exists i :: 1 <= i <= totalVideos && attempt(i).Failed?
      ensures |fetched| == totalVideos
      ensures forall j :: 0 <= j < |fetched| ==> fetched[j] == j + 1
      ensures errorLog == FailedIndices(attempt, totalVideos)
    {
      var pool := PreloadLoop(attempt);
      videoPool := pool;
      preloadDone := true;
      PoolSizeIsCount(attempt, totalVideos);
      PoolHoldsLoaded(attempt, totalVideos);
      AllLoadedIff(attempt, totalVideos);
    }
  }
}
