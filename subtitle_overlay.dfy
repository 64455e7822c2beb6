/** The word window of the subtitle overlay: which word of the timed
    transcript is active at the current playback time, and which run of at
    most `WordsPerView` words around it is shown. */
module SubtitleOverlay {

  /** A word with the interval of playback time, in seconds, during which it
      is spoken. */
  datatype WordTiming = WordTiming(word: string, start: real, end: real)

  /** The visible run of words: indices `start` up to, not including, `end`. */
  datatype Window = Window(start: int, end: int)

  /** Roughly two lines of text. */
  const WordsPerView: int := 12
  /** `Math.floor(WordsPerView / 2)` */
  const HalfWindow: int := 6

  /** The per-word highlight test: `currentTime` lies in `[start, end)`. */
  predicate IsActive(t: WordTiming, currentTime: real) {
    currentTime >= t.start && currentTime < t.end
  }

  /** `Array.prototype.findIndex`: the index of the first element that
      satisfies `p`, and -1 when none does. */
  function FindIndex(ts: seq<WordTiming>, p: WordTiming -> bool): (r: int)
    ensures -1 <= r < |ts|
    ensures r >= 0 ==> p(ts[r]) && forall j :: 0 <= j < r ==> !p(ts[j])
    ensures r == -1 <==> forall j :: 0 <= j < |ts| ==> !p(ts[j])
  {
    if ts == [] then -1
    else if p(ts[0]) then 0
    else
      var k := FindIndex(ts[1..], p);
      assert forall j :: 1 <= j < |ts| ==> ts[j] == ts[1..][j - 1];
      if k == -1 then -1 else k + 1
  }

  /** `timings[0]?.start || 0`: the first word's start, 0 when there is no
      word (a start of 0 is falsy but gives 0 either way). */
  function FirstStart(ts: seq<WordTiming>): real {
    if |ts| > 0 then ts[0].start else 0.0
  }

  /** `timings[timings.length - 1]?.end || duration`: the last word's end,
      the clip's duration when there is no word or that end is 0. */
  function LastEnd(ts: seq<WordTiming>, duration: real): real {
    if |ts| > 0 && ts[|ts| - 1].end != 0.0 then ts[|ts| - 1].end else duration
  }

  /** The active word: the first word being spoken; with none, the first
      word before the first start, the last word after the last end, and in
      a gap the next word to be spoken (the last word when none follows). */
  function ActiveWordIndex(ts: seq<WordTiming>, currentTime: real, duration: real): (r: int)
    ensures |ts| > 0 ==> 0 <= r < |ts|
    ensures |ts| == 0 ==> r == 0 || r == -1
  {
    var active := FindIndex(ts, t => IsActive(t, currentTime));
    if active != -1 then active
    else if currentTime < FirstStart(ts) then 0
    else if currentTime > LastEnd(ts, duration) then |ts| - 1
    else
      var next := FindIndex(ts, (t: WordTiming) => t.start > currentTime);
      if next != -1 then next else |ts| - 1
  }

  function Min(a: int, b: int): int {
    if a <= b then a else b
  }

  function Max(a: int, b: int): int {
    if a >= b then a else b
  }

  /** The window of `HalfWindow` words either side of `active`, shifted to
      start at 0 when it would start before the first word, and to end at
      the last word when it would run past it. */
  function WindowBounds(n: nat, active: int): Window {
    var start := active - HalfWindow;
    var end := active + HalfWindow;
    var w := if start < 0 then Window(0, Min(n, WordsPerView)) else Window(start, end);
    if w.end > n then Window(Max(0, n - WordsPerView), n) else w
  }

  /** `timings.slice(start, end)` */
  function VisibleWords(ts: seq<WordTiming>, currentTime: real, duration: real): (r: seq<WordTiming>)
    ensures |r| == Min(|ts|, WordsPerView)
  {
    var w := WindowBounds(|ts|, ActiveWordIndex(ts, currentTime, duration));
    WindowWithinBounds(|ts|, ActiveWordIndex(ts, currentTime, duration));
    ts[w.start..w.end]
  }

  // ---------------------------------------------------------------------------
  // Properties

  /** Whatever the active index, the window lies within the words and holds
      exactly `WordsPerView` of them, or all of them when there are fewer. */
  lemma WindowWithinBounds(n: nat, active: int)
    ensures 0 <= WindowBounds(n, active).start <= WindowBounds(n, active).end <= n
    ensures WindowBounds(n, active).end - WindowBounds(n, active).start == Min(n, WordsPerView)
  {
  }

  /** The active word is always inside the window. */
  lemma ActiveInWindow(n: nat, active: int)
    requires 0 <= active < n
    ensures WindowBounds(n, active).start <= active < WindowBounds(n, active).end
  {
  }

  /** A word being spoken: the first one is active. */
  lemma SpokenWordIsActive(ts: seq<WordTiming>, currentTime: real, duration: real, i: nat)
    requires i < |ts| && IsActive(ts[i], currentTime)
    requires forall j :: 0 <= j < i ==> !IsActive(ts[j], currentTime)
    ensures ActiveWordIndex(ts, currentTime, duration) == i
  {
    var p := t => IsActive(t, currentTime);
    var r := FindIndex(ts, p);
    assert p(ts[i]);
  }

  /** Before the first word starts and with none being spoken, the first
      word is active. */
  lemma BeforeFirstWord(ts: seq<WordTiming>, currentTime: real, duration: real)
    requires |ts| > 0 && currentTime < ts[0].start
    requires forall j :: 0 <= j < |ts| ==> !IsActive(ts[j], currentTime)
    ensures ActiveWordIndex(ts, currentTime, duration) == 0
  {
  }

  /** Past the last word's end (or the duration), with none being spoken, the
      last word is active. */
  lemma AfterLastWord(ts: seq<WordTiming>, currentTime: real, duration: real)
    requires |ts| > 0 && currentTime >= FirstStart(ts) && currentTime > LastEnd(ts, duration)
    requires forall j :: 0 <= j < |ts| ==> !IsActive(ts[j], currentTime)
    ensures ActiveWordIndex(ts, currentTime, duration) == |ts| - 1
  {
  }

  /** In a gap between words, the next word to start is active. */
  lemma GapShowsNextWord(ts: seq<WordTiming>, currentTime: real, duration: real, i: nat)
    requires currentTime >= FirstStart(ts) && currentTime <= LastEnd(ts, duration)
    requires forall j :: 0 <= j < |ts| ==> !IsActive(ts[j], currentTime)
    requires i < |ts| && ts[i].start > currentTime
    requires forall j :: 0 <= j < i ==> ts[j].start <= currentTime
    ensures ActiveWordIndex(ts, currentTime, duration) == i
  {
    var p := t => IsActive(t, currentTime);
    var q := (t: WordTiming) => t.start > currentTime;
    assert FindIndex(ts, p) == -1;
    var r := FindIndex(ts, q);
    assert q(ts[i]);
  }

  /** In a gap after the last word to start, and before the end of the
      words, the last word stays active. */
  lemma GapAfterLastStart(ts: seq<WordTiming>, currentTime: real, duration: real)
    requires currentTime >= FirstStart(ts) && currentTime <= LastEnd(ts, duration)
    requires forall j :: 0 <= j < |ts| ==> !IsActive(ts[j], currentTime)
    requires forall j :: 0 <= j < |ts| ==> ts[j].start <= currentTime
    ensures ActiveWordIndex(ts, currentTime, duration) == |ts| - 1
  {
    var p := t => IsActive(t, currentTime);
    var q := (t: WordTiming) => t.start > currentTime;
    assert FindIndex(ts, p) == -1;
    assert FindIndex(ts, q) == -1;
  }

  /** Some visible word is highlighted exactly when some word is being
      spoken. */
  lemma HighlightShownIffSpoken(ts: seq<WordTiming>, currentTime: real, duration: real)
    ensures (exists k :: 0 <= k < |VisibleWords(ts, currentTime, duration)| && IsActive(VisibleWords(ts, currentTime, duration)[k], currentTime))
        <==> (exists i :: 0 <= i < |ts| && IsActive(ts[i], currentTime))
  {
    var a := ActiveWordIndex(ts, currentTime, duration);
    var w := WindowBounds(|ts|, a);
    var vis := VisibleWords(ts, currentTime, duration);
    WindowWithinBounds(|ts|, a);
    assert vis == ts[w.start..w.end];
    if exists i :: 0 <= i < |ts| && IsActive(ts[i], currentTime) {
      var p := t => IsActive(t, currentTime);
      var i :| 0 <= i < |ts| && IsActive(ts[i], currentTime);
      assert p(ts[i]);
      assert a == FindIndex(ts, p);
      ActiveInWindow(|ts|, a);
      assert vis[a - w.start] == ts[a];
    }
    if exists k :: 0 <= k < |vis| && IsActive(vis[k], currentTime) {
      var k :| 0 <= k < |vis| && IsActive(vis[k], currentTime);
      assert vis[k] == ts[w.start + k];
    }
  }

  /** Thirty words with the 21st being spoken show words 14 to 25. */
  lemma WindowExample()
    ensures WindowBounds(30, 20) == Window(14, 26)
    ensures WindowBounds(30, 2) == Window(0, 12)
    ensures WindowBounds(30, 27) == Window(18, 30)
    ensures WindowBounds(5, 3) == Window(0, 5)
  {
  }
}
