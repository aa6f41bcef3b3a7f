/**
  The game flow of App.tsx: the countdown, starting a round, finishing it with a
  score, and the `MM:SS` clock display. The catalogue fetch, the remote scorer
  and the clock are collaborators, so their results arrive as parameters.
 */
module Game {
  import opened Wrappers
  import Decimal
  import DrawingCanvas

  /** types.ts `GameState`. */
  datatype GameState = Home | Drawing | Result

  /** types.ts `GameMode`. */
  datatype GameMode = Normal | Timed

  /** types.ts `Pokemon`: the reference entity of one round. */
  datatype Pokemon = Pokemon(id: int, name: string, chineseName: string, imageUrl: string)

  /** types.ts `DrawingResult`: what the result screen shows. */
  datatype DrawingResult = DrawingResult(id: string, pokemon: Pokemon, userDrawing: string, score: int, comment: string, timestamp: int)

  /** What awaiting the scorer produced: a response, or an exception. */
  datatype ScoreOutcome = Scored(score: int, comment: string) | Threw

  /** The component state of App.tsx (its `useState` hooks). */
  datatype App = App(
    gameState: GameState,
    gameMode: GameMode,
    currentPokemon: Option<Pokemon>,
    drawingTool: DrawingCanvas.Tool,
    timer: int,
    isScoring: bool,
    lastResult: Option<DrawingResult>)

  const Initial: App := App(Home, Normal, None, DrawingCanvas.Pen, 0, false, None)

  /** Seconds granted to a timed round. */
  const RoundSeconds: int := 60

  // ---------------------------------------------------------------- clock display

  /**
    `formatTime`'s two fields: minutes by `Math.floor(seconds / 60)`, seconds by
    JavaScript's `%`, whose remainder takes the sign of the dividend.
   */
  function TimeFields(seconds: int): (r: (int, int))
    ensures seconds >= 0 ==> r.0 >= 0 && 0 <= r.1 < 60 && r.0 * 60 + r.1 == seconds
    ensures seconds < 0 ==> r.0 < 0 && -60 < r.1 <= 0
  {
    var mins := seconds / 60;  // Euclidean division by a positive divisor is floor division
    var secs := if seconds >= 0 then seconds % 60 else -((-seconds) % 60);
    (mins, secs)
  }

  /** One field of the display: `n.toString().padStart(2, '0')`. */
  function Field(n: int): string
  {
    Decimal.PadStart(Decimal.IntToString(n), 2, '0')
  }

  /** `formatTime`: both fields joined by ':'. */
  function FormatTime(seconds: int): string
  {
    var fields := TimeFields(seconds);
    Field(fields.0) + ":" + Field(fields.1)
  }

  /** The field of a non-negative number is all digits, at least two of them, and exactly two below 100. */
  lemma FieldShape(n: nat)
    ensures |Field(n)| >= 2
    ensures |Field(n)| == 2 <==> n < 100
    ensures forall i :: 0 <= i < |Field(n)| ==> Decimal.IsDigit(Field(n)[i])
  {
    assert Field(n) == Decimal.PadStart(Decimal.Digits(n), 2, '0');
  }

  /** The field of a non-negative number reads back as that number. */
  lemma FieldValue(n: nat)
    ensures Decimal.Value(Field(n)) == n
  {
    var d := Decimal.Digits(n);
    var p := Field(n);
    assert p == Decimal.PadStart(d, 2, '0');
    var z := p[..|p| - |d|];
    assert p == z + d;
    Decimal.LeadingZeros(z, d);
    Decimal.ValueOfDigits(n);
  }

  /** A clock display: digits, a ':' before the last two digits, and those two below 60. */
  ghost predicate WellFormedClock(r: string)
  {
    && |r| >= 5 && r[|r| - 3] == ':'
    && (forall i :: 0 <= i < |r| && i != |r| - 3 ==> Decimal.IsDigit(r[i]))
    && Decimal.Value(r[|r| - 2..]) < 60
  }

  /** Reference reading of a clock display: minutes before the ':' times 60, plus the seconds after it. */
  function ReadClock(r: string): int
    requires |r| >= 3
  {
    Decimal.Value(r[..|r| - 3]) * 60 + Decimal.Value(r[|r| - 2..])
  }

  /** Two digit fields joined by ':' form a clock display that reads back as its fields. */
  lemma JoinedFields(a: string, b: string)
    requires |a| >= 2 && |b| == 2
    requires forall i :: 0 <= i < |a| ==> Decimal.IsDigit(a[i])
    requires forall i :: 0 <= i < |b| ==> Decimal.IsDigit(b[i])
    requires Decimal.Value(b) < 60
    ensures |a + ":" + b| == |a| + 3
    ensures WellFormedClock(a + ":" + b)
    ensures ReadClock(a + ":" + b) == Decimal.Value(a) * 60 + Decimal.Value(b)
  {
    var r := a + ":" + b;
    assert r[..|r| - 3] == a;
    assert r[|r| - 2..] == b;
    JoinedDigits(a, b);
  }

  lemma JoinedDigits(a: string, b: string)
    requires forall i :: 0 <= i < |a| ==> Decimal.IsDigit(a[i])
    requires forall i :: 0 <= i < |b| ==> Decimal.IsDigit(b[i])
    requires |b| == 2
    ensures var r := a + ":" + b;
      forall i :: 0 <= i < |r| && i != |r| - 3 ==> Decimal.IsDigit(r[i])
  {
    var r := a + ":" + b;
    forall i | 0 <= i < |r| && i != |r| - 3
      ensures Decimal.IsDigit(r[i])
    {
      if i < |a| {
        assert r[i] == a[i];
      } else {
        assert r[i] == b[i - |a| - 1];
      }
    }
  }

  /** The display of a minutes field and a seconds field below 60 reads back as both. */
  lemma DisplayReadsBack(mins: nat, secs: nat)
    requires secs < 60
    ensures WellFormedClock(Field(mins) + ":" + Field(secs))
    ensures ReadClock(Field(mins) + ":" + Field(secs)) == mins * 60 + secs
    ensures |Field(mins) + ":" + Field(secs)| == 5 <==> mins < 100
  {
    FieldShape(mins);
    FieldShape(secs);
    FieldValue(mins);
    FieldValue(secs);
    JoinedFields(Field(mins), Field(secs));
  }

  /**
    For every non-negative count of seconds the display is well formed and reads
    back as that count; below 6000 seconds it is exactly `MM:SS`.
   */
  lemma FormatTimeRoundTrip(seconds: int)
    requires seconds >= 0
    ensures WellFormedClock(FormatTime(seconds))
    ensures ReadClock(FormatTime(seconds)) == seconds
    ensures |FormatTime(seconds)| == 5 <==> seconds < 6000
  {
    var fields := TimeFields(seconds);
    var mins: nat, secs: nat := fields.0, fields.1;
    assert FormatTime(seconds) == Field(mins) + ":" + Field(secs);
    DisplayReadsBack(mins, secs);
  }

  // ---------------------------------------------------------------- countdown

  /** The countdown interval exists only while drawing a timed round with time left. */
  predicate CountdownActive(a: App)
  {
    a.gameState == Drawing && a.gameMode == Timed && a.timer > 0
  }

  /** The timer updater: the next value, and whether it asked for the round to finish. */
  function NextTimer(prev: int): (r: (int, bool))
    ensures r.0 >= 0
    ensures r.1 <==> prev <= 1
    ensures prev > 1 ==> r.0 == prev - 1
    ensures prev <= 1 ==> r.0 == 0
  {
    if prev <= 1 then (0, true) else (prev - 1, false)
  }

  /** One interval tick: nothing happens unless the countdown is active. */
  function Tick(a: App): (r: (App, bool))
    ensures !CountdownActive(a) ==> r == (a, false)
    ensures CountdownActive(a) ==> r.0 == a.(timer := r.0.timer) && 0 <= r.0.timer < a.timer
    ensures r.1 ==> r.0.timer == 0
  {
    if CountdownActive(a) then
      var (next, finish) := NextTimer(a.timer);
      (a.(timer := next), finish)
    else (a, false)
  }

  /** `k` ticks: the state reached and how many times the round was asked to finish. */
  function Ticks(a: App, k: nat): (App, nat)
    decreases k
  {
    if k == 0 then (a, 0)
    else
      var (a1, finish) := Tick(a);
      var (ak, finishes) := Ticks(a1, k - 1);
      (ak, finishes + if finish then 1 else 0)
  }

  lemma {:induction false} IdleTicks(a: App, k: nat)
    requires !CountdownActive(a)
    ensures Ticks(a, k) == (a, 0)
    decreases k
  {
    if k > 0 {
      IdleTicks(a, k - 1);
    }
  }

  /**
    An active countdown from `t` counts down by one per tick, never goes negative,
    and asks to finish exactly once, on tick `t`.
   */
  lemma {:induction false} CountdownFinishesOnce(a: App, k: nat)
    requires CountdownActive(a)
    ensures Ticks(a, k).0 == a.(timer := if k >= a.timer then 0 else a.timer - k)
    ensures Ticks(a, k).1 == if k >= a.timer then 1 else 0
    decreases k
  {
    if k > 0 {
      var (a1, finish) := Tick(a);
      if a.timer > 1 {
        CountdownFinishesOnce(a1, k - 1);
      } else {
        IdleTicks(a1, k - 1);
      }
    }
  }

  // ---------------------------------------------------------------- rounds

  /**
    `startGame`, after the reference entity `pkmn` has arrived: enter the drawing
    screen with the pen; a timed round gets a fresh 60 seconds.
   */
  function StartGame(a: App, pkmn: Pokemon): (r: App)
    ensures r.gameState == Drawing && r.drawingTool == DrawingCanvas.Pen && r.currentPokemon == Some(pkmn)
    ensures a.gameMode == Timed ==> r.timer == RoundSeconds
    ensures a.gameMode == Normal ==> r.timer == a.timer
    ensures r.gameMode == a.gameMode && r.isScoring == a.isScoring && r.lastResult == a.lastResult
  {
    var r := a.(currentPokemon := Some(pkmn), gameState := Drawing, drawingTool := DrawingCanvas.Pen);
    if a.gameMode == Timed then r.(timer := RoundSeconds) else r
  }

  /** A timed round, once started, finishes exactly at its 60th tick. */
  lemma TimedRoundLastsSixtyTicks(a: App, pkmn: Pokemon)
    requires a.gameMode == Timed
    ensures CountdownActive(StartGame(a, pkmn))
    ensures Ticks(StartGame(a, pkmn), 59).1 == 0 && Ticks(StartGame(a, pkmn), 59).0.timer == 1
    ensures Ticks(StartGame(a, pkmn), 60).1 == 1 && Ticks(StartGame(a, pkmn), 60).0.timer == 0
  {
    CountdownFinishesOnce(StartGame(a, pkmn), 59);
    CountdownFinishesOnce(StartGame(a, pkmn), 60);
  }

  /** The timer is never negative, from the initial state on. */
  ghost predicate TimerSane(a: App)
  {
    a.timer >= 0
  }

  lemma TimerStaysSane(a: App, pkmn: Pokemon)
    requires TimerSane(a)
    ensures TimerSane(StartGame(a, pkmn)) && TimerSane(Tick(a).0)
  {
  }

  /**
    `handleFinish` up to its await: with a canvas handle and a current entity the
    scoring flag is raised (disabling the finish button); otherwise nothing happens.
   */
  function BeginFinish(a: App, canvas: Option<DrawingCanvas.Surface>): (r: App)
    ensures canvas.None? || a.currentPokemon.None? ==> r == a
    ensures canvas.Some? && a.currentPokemon.Some? ==> r.isScoring && r.(isScoring := a.isScoring) == a
  {
    if canvas.None? || a.currentPokemon.None? then a else a.(isScoring := true)
  }

  /**
    `handleFinish`, once the scorer has settled. Without a canvas handle or a current
    entity nothing happens. Otherwise the drawing is exported; a score moves to the
    result screen with the scorer's score and comment unchanged, an exception leaves
    the screen as it was; either way the scoring flag ends cleared. `idClock` and
    `stampClock` are the two readings of `Date.now()`.
   */
  function HandleFinish(a: App, canvas: Option<DrawingCanvas.Surface>, exportPng: DrawingCanvas.Exporter,
                        outcome: ScoreOutcome, idClock: int, stampClock: int): (r: App)
    ensures canvas.None? || a.currentPokemon.None? ==> r == a
    ensures canvas.Some? && a.currentPokemon.Some? && outcome.Threw? ==> r == a.(isScoring := false)
    ensures canvas.Some? && a.currentPokemon.Some? && outcome.Scored? ==>
      && r.gameState == Result && !r.isScoring
      && r.lastResult.Some?
      && r.lastResult.value.score == outcome.score
      && r.lastResult.value.comment == outcome.comment
      && r.lastResult.value.pokemon == a.currentPokemon.value
      && r.lastResult.value.userDrawing == DrawingCanvas.GetDataUrl(canvas.value, exportPng)
      && r.lastResult.value.timestamp == stampClock
      && r == a.(gameState := Result, isScoring := false, lastResult := r.lastResult)
  {
    if canvas.None? || a.currentPokemon.None? then a
    else
      var pokemon := a.currentPokemon.value;
      var userDrawing := DrawingCanvas.GetDataUrl(canvas.value, exportPng);
      match outcome
      case Threw => a.(isScoring := false)
      case Scored(score, comment) =>
        var result := DrawingResult(Decimal.IntToString(idClock), pokemon, userDrawing, score, comment, stampClock);
        a.(lastResult := Some(result), gameState := Result, isScoring := false)
  }

  /** The result screen is rendered only when there is a result to show. */
  ghost predicate ResultHasRecord(a: App)
  {
    a.gameState == Result ==> a.lastResult.Some?
  }

  /**
    Every transition keeps a result record behind the result screen, and only a
    successful scoring of an existing round enters that screen.
   */
  lemma ResultScreenHasRecord(a: App, pkmn: Pokemon, canvas: Option<DrawingCanvas.Surface>, exportPng: DrawingCanvas.Exporter,
                              outcome: ScoreOutcome, idClock: int, stampClock: int)
    requires ResultHasRecord(a)
    ensures ResultHasRecord(Initial)
    ensures ResultHasRecord(StartGame(a, pkmn))
    ensures ResultHasRecord(Tick(a).0)
    ensures ResultHasRecord(BeginFinish(a, canvas))
    ensures ResultHasRecord(HandleFinish(a, canvas, exportPng, outcome, idClock, stampClock))
    ensures a.gameState != Result && HandleFinish(a, canvas, exportPng, outcome, idClock, stampClock).gameState == Result
        <==> a.gameState != Result && canvas.Some? && a.currentPokemon.Some? && outcome.Scored?
  {
  }
}
