/**
 * Intros from embedded chapters (internal/skipsegment/chapters.go). The title patterns are a
 * parameter; times are exact reals.
 */
module SkipChapters {
  import opened Rounding
  import opened Wrappers
  import opened SkipMatch

  const MAX_SCAN_WINDOW_SEC: real := 600.0
  const MAX_SCAN_RUNTIME_RATIO: real := 0.30

  datatype Chapter = Chapter(startSeconds: real, endSeconds: real, title: string)

  // titleMatchesIntro and titleMatchesRecap.
  datatype Titles = Titles(isIntro: string -> bool, isRecap: string -> bool)

  datatype Intro = Intro(startMs: int, endMs: int)

  // The shorter of ten minutes and 30 percent of the runtime.
  function ScanWindowSec(durationSeconds: real): (window: real)
    ensures durationSeconds <= 0.0 ==> window == 0.0
    ensures durationSeconds >= 0.0 ==> 0.0 <= window <= 600.0 && window <= 0.30 * durationSeconds
    ensures durationSeconds > 0.0 ==> window == 600.0 || window == 0.30 * durationSeconds
  {
    if durationSeconds <= 0.0 then 0.0
    else
      var window := durationSeconds * MAX_SCAN_RUNTIME_RATIO;
      if window > MAX_SCAN_WINDOW_SEC then MAX_SCAN_WINDOW_SEC else window
  }

  // The nearest whole number of milliseconds, halves up.
  function SecondsToMs(seconds: real): (ms: int)
    ensures seconds <= 0.0 ==> ms == 0
    ensures seconds > 0.0 ==> ms as real - 0.5 <= seconds * 1000.0 < ms as real + 0.5
  {
    if seconds <= 0.0 then 0 else Round(seconds * (MS_PER_SECOND as real))
  }

  predicate HasIntroTitle(titles: Titles, chapter: Chapter) {
    titles.isIntro(chapter.title) && !titles.isRecap(chapter.title)
  }

  predicate HasIntroTimes(chapter: Chapter, scanWindow: real) {
    && MIN_INTRO_SEC as real <= chapter.endSeconds - chapter.startSeconds <= MAX_INTRO_SEC as real
    && 0.0 <= chapter.startSeconds <= scanWindow
  }

  // The chapter opens a run of intro-titled chapters and has the times of an intro.
  predicate Qualifies(titles: Titles, chapters: seq<Chapter>, scanWindow: real, i: int)
    requires 0 <= i < |chapters|
  {
    && HasIntroTitle(titles, chapters[i]) && HasIntroTimes(chapters[i], scanWindow)
    && (i > 0 ==> !HasIntroTitle(titles, chapters[i - 1]))
  }

  /**
   * The intro is the first chapter that opens a run of intro-titled chapters and has the times of an
   * intro: the flag makes a later chapter of a run never qualify, even after the first was refused.
   */
  method IntroFromChapters(titles: Titles, chapters: seq<Chapter>, durationSeconds: real) returns (intro: Option<Intro>)
    ensures var window := ScanWindowSec(durationSeconds);
            && (intro.None? <==>
                  durationSeconds <= 0.0 || forall i :: 0 <= i < |chapters| ==> !Qualifies(titles, chapters, window, i))
            && (intro.Some? ==>
                  exists i :: 0 <= i < |chapters| && Qualifies(titles, chapters, window, i)
                              && (forall j :: 0 <= j < i ==> !Qualifies(titles, chapters, window, j))
                              && intro.value.startMs == SecondsToMs(chapters[i].startSeconds)
                              && intro.value.endMs == SecondsToMs(chapters[i].endSeconds))
  {
    if |chapters| == 0 || durationSeconds <= 0.0 {
      return None;
    }
    var scanWindow := ScanWindowSec(durationSeconds);
    var prevTitleWasIntro := false;
    for n := 0 to |chapters|
      invariant prevTitleWasIntro <==> n > 0 && HasIntroTitle(titles, chapters[n - 1])
      invariant forall j :: 0 <= j < n ==> !Qualifies(titles, chapters, scanWindow, j)
    {
      var chapter := chapters[n];
      if !titles.isIntro(chapter.title) || titles.isRecap(chapter.title) {
        prevTitleWasIntro := false;
        continue;
      }
      if prevTitleWasIntro {
        continue;
      }
      var start, end := chapter.startSeconds, chapter.endSeconds;
      if end <= start {
        prevTitleWasIntro := true;
        continue;
      }
      var duration := end - start;
      if duration < MIN_INTRO_SEC as real || duration > MAX_INTRO_SEC as real {
        prevTitleWasIntro := true;
        continue;
      }
      if start < 0.0 || start > scanWindow {
        prevTitleWasIntro := true;
        continue;
      }
      assert Qualifies(titles, chapters, scanWindow, n);
      return Some(Intro(SecondsToMs(start), SecondsToMs(end)));
    }
    return None;
  }

  /**
   * A chapter qualifies exactly when it is titled as an intro and not as a recap, the chapter before it is
   * not such a one, it takes 10 to 150 seconds, and it starts inside the scan window.
   */
  lemma QualifiesIff(titles: Titles, chapters: seq<Chapter>, durationSeconds: real, i: int)
    requires 0 <= i < |chapters| && durationSeconds > 0.0
    ensures var length := chapters[i].endSeconds - chapters[i].startSeconds;
            Qualifies(titles, chapters, ScanWindowSec(durationSeconds), i) <==>
            && titles.isIntro(chapters[i].title) && !titles.isRecap(chapters[i].title)
            && (i == 0 || !titles.isIntro(chapters[i - 1].title) || titles.isRecap(chapters[i - 1].title))
            && 10.0 <= length <= 150.0 && 0.0 <= chapters[i].startSeconds <= 600.0
            && chapters[i].startSeconds <= 0.30 * durationSeconds
  {
  }

  /** Rounding both ends keeps the span within the limits, and the start within half a millisecond of the window. */
  lemma RoundedIntroTimes(chapter: Chapter, scanWindow: real)
    requires HasIntroTimes(chapter, scanWindow)
    ensures var start, end := SecondsToMs(chapter.startSeconds), SecondsToMs(chapter.endSeconds);
            && 0 <= start
            && 10000 <= end - start <= 150000
            && start as real <= scanWindow * 1000.0 + 0.5
  {
    var x, y := chapter.startSeconds * 1000.0, chapter.endSeconds * 1000.0;
    assert y - x == (chapter.endSeconds - chapter.startSeconds) * 1000.0;
    assert 10000.0 <= y - x <= 150000.0;
    assert x <= scanWindow * 1000.0;
  }
}
