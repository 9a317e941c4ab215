/**
 * The background rotation manager: the catalog, the current index, the two
 * background layers with their crossfade, the pending transition commit,
 * the auto-switch timer and the two persisted preferences.
 *
 * Timers are state: `pendingTarget` is the armed transition timeout (with
 * the file it will commit) and `autoSwitch` is the armed interval (with its
 * period). Their firing is a method call: `CommitTransition` and
 * `AutoSwitchTick`. Browser storage is the pair of `stored…` fields.
 */
module Rotation {
  import opened Wrappers
  import opened Seqs
  import Delay
  import Discovery
  import Catalog

  /** JavaScript's `%` on integers: the remainder has the sign of the dividend. */
  function JsRemainder(a: int, n: int): (r: int)
    requires n > 0
    ensures -n < r < n
    ensures a >= 0 ==> r == a % n
    ensures a <= 0 ==> r <= 0
    ensures (a - r) % n == 0
  {
    TruncatedRemainderCongruent(a, n);
    if a >= 0 then a % n else -((-a) % n)
  }

  /** Both branches of the truncated remainder differ from the dividend by a multiple of n. */
  lemma TruncatedRemainderCongruent(a: int, n: int)
    requires n > 0
    ensures a >= 0 ==> (a - a % n) % n == 0
    ensures a < 0 ==> (a + (-a) % n) % n == 0
  {
    if a >= 0 {
      var q := a / n;
      assert a == q * n + a % n;
      assert a - a % n == q * n;
      MultipleMod(q, n);
    } else {
      var b := -a;
      var q := b / n;
      assert b == q * n + b % n;
      assert a + b % n == (-q) * n;
      MultipleMod(-q, n);
    }
  }

  /** A multiple of n leaves no remainder. */
  lemma MultipleMod(q: int, n: int)
    requires n > 0
    ensures (q * n) % n == 0
  {
    ModUnique(q * n, n, q, 0);
  }

  /** On a negative dividend the two remainders differ: -1 stays -1 instead of wrapping. */
  lemma JsRemainderOfMinusOne(n: int)
    requires n > 1
    ensures JsRemainder(-1, n) == -1
    ensures -1 % n == n - 1
  {
    ModOfRange(1, n);
    ModOfRange(n - 1, n);
    ModUnique(-1, n, -1, n - 1);
  }

  lemma ModOfRange(x: int, n: int)
    requires n > 0 && 0 <= x < n
    ensures x % n == x
  {
  }

  lemma MulStep(a: int, b: int, n: int)
    requires n > 0 && a < b
    ensures a * n + n <= b * n
  {
    var d := b - a;
    assert d >= 1;
    assert d * n >= n;
    assert b * n == a * n + d * n;
  }

  /** Euclidean division has one remainder in [0, n). */
  lemma ModUnique(x: int, n: int, q: int, r: int)
    requires n > 0 && 0 <= r < n && x == q * n + r
    ensures x % n == r
  {
    var q', r' := x / n, x % n;
    assert x == q' * n + r';
    if q' < q {
      MulStep(q', q, n);
    } else if q' > q {
      MulStep(q, q', n);
    }
  }

  lemma ModShift(x: int, n: int)
    requires n > 0
    ensures (x + n) % n == x % n
  {
    assert x == (x / n) * n + x % n;
    assert x + n == (x / n + 1) * n + x % n;
    ModUnique(x + n, n, x / n + 1, x % n);
  }

  /** The index `changeBackground(step)` moves to: offset by the length, then `%`. */
  function NextIndex(index: int, step: int, length: int): (r: int)
    requires length > 0
    ensures -length < r < length
    ensures index + step + length >= 0 ==> 0 <= r && r == (index + step) % length
    ensures index + step + length < 0 ==> r <= 0
  {
    ModShift(index + step, length);
    JsRemainder(index + step + length, length)
  }

  /**
   * For an index in range and a step no more negative than minus the
   * length, the offset-then-`%` pattern is the mathematical modulo and stays
   * in range.
   */
  lemma NextIndexInRange(index: int, step: int, length: int)
    requires length > 0
    requires 0 <= index < length
    requires step >= -length
    ensures 0 <= NextIndex(index, step, length) < length
    ensures NextIndex(index, step, length) == (index + step) % length
  {
    ModShift(index + step, length);
  }

  /** A step forward then a step back returns to the same entry. */
  lemma NextThenPrevious(index: int, length: int)
    requires 0 <= index < length
    ensures NextIndex(NextIndex(index, 1, length), -1, length) == index
  {
    NextIndexInRange(index, 1, length);
    var j := NextIndex(index, 1, length);
    NextIndexInRange(j, -1, length);
    if index + 1 < length {
      ModOfRange(index + 1, length);
      ModOfRange(index, length);
    } else {
      ModUnique(index + 1, length, 1, 0);
      ModUnique(-1, length, -1, length - 1);
    }
  }

  /** A step back then a step forward returns to the same entry. */
  lemma PreviousThenNext(index: int, length: int)
    requires 0 <= index < length
    ensures NextIndex(NextIndex(index, -1, length), 1, length) == index
  {
    NextIndexInRange(index, -1, length);
    var j := NextIndex(index, -1, length);
    NextIndexInRange(j, 1, length);
    if index > 0 {
      ModOfRange(index - 1, length);
      ModOfRange(index, length);
    } else {
      ModUnique(-1, length, -1, length - 1);
      ModUnique(length, length, 1, 0);
    }
  }

  /** The delay setup starts from: the stored one, or the built-in one when nothing is stored. */
  function SavedDelayOrDefault(stored: Option<Delay.Num>): Delay.Num
  {
    match stored
    case None => Delay.Finite(Delay.DefaultDelay)
    case Some(n) => n
  }

  /** Setup's delay is the stored one normalised, or the built-in one when nothing is stored. */
  lemma SetupDelay(stored: Option<Delay.Num>)
    ensures Delay.Normalize(SavedDelayOrDefault(stored))
         == if stored.Some? then Delay.Normalize(stored.value) else Delay.DefaultDelay
  {
  }

  class BackgroundSwitcher {
    /** The discovered backgrounds (`availableBackgrounds`). */
    var catalog: seq<string>
    /** `currentBackgroundIndex`. */
    var currentIndex: int
    /** The `--bg-current` and `--bg-next` layers; None until first set. */
    var bgCurrent: Option<string>
    var bgNext: Option<string>
    /** Whether the body carries the crossfade class. */
    var fading: bool
    /** The armed transition timeout and the file it commits. */
    var pendingTarget: Option<string>
    /** The armed auto-switch interval and its period in milliseconds. */
    var autoSwitch: Option<real>
    /** `backgroundAutoSwitchDelay`. */
    var delay: real
    /** The stored selection (`fspSelectedBackground`). */
    var storedSelection: Option<string>
    /** The stored delay (`fspBackgroundSwitchInterval`), as `Number` reads it. */
    var storedDelay: Option<Delay.Num>
    /** Whether the previous/next buttons are disabled. */
    var navButtonsDisabled: bool
    /** Whether the stop/resume button is disabled, and whether it shows "stopped". */
    var stopButtonDisabled: bool
    var stopButtonStopped: bool

    ghost predicate Valid()
      reads this
    {
      0 <= currentIndex
      && (|catalog| > 0 ==> currentIndex < |catalog|)
      && (|catalog| == 0 ==> currentIndex == 0)
      && NoDuplicates(catalog)
      && (fading <==> pendingTarget.Some?)
      && (autoSwitch.Some? ==> |catalog| > 1 && autoSwitch.value > 0.0)
      && delay > 0.0
    }

    /** The page's state before setup, with storage left by an earlier visit. */
    constructor (savedDelay: Option<Delay.Num>, savedSelection: Option<string>)
      ensures Valid()
      ensures catalog == [] && currentIndex == 0
      ensures bgCurrent == None && bgNext == None && !fading && pendingTarget == None
      ensures autoSwitch == None && delay == Delay.DefaultDelay
      ensures storedDelay == savedDelay && storedSelection == savedSelection
      ensures !navButtonsDisabled && !stopButtonDisabled && !stopButtonStopped
    {
      catalog := [];
      currentIndex := 0;
      bgCurrent, bgNext := None, None;
      fading := false;
      pendingTarget := None;
      autoSwitch := None;
      delay := Delay.DefaultDelay;
      storedDelay := savedDelay;
      storedSelection := savedSelection;
      navButtonsDisabled, stopButtonDisabled, stopButtonStopped := false, false, false;
    }

    /** setBackgroundAutoSwitchDelay: keep and store exactly the normalised delay. */
    method SetDelay(value: Delay.Num)
      requires Valid()
      modifies this`delay, this`storedDelay
      ensures Valid()
      ensures delay == Delay.Normalize(value)
      ensures storedDelay == Some(Delay.Finite(delay))
    {
      delay := Delay.Normalize(value);
      storedDelay := Some(Delay.Finite(delay));
    }

    /**
     * applyBackground. Immediately: both layers show the file and it is
     * stored. With a transition: any pending commit is replaced by one for
     * this file, only the next layer and the crossfade flag change, and
     * nothing is stored until the commit.
     */
    method ApplyBackground(fileName: string, withTransition: bool)
      requires Valid()
      modifies this`bgCurrent, this`bgNext, this`storedSelection, this`fading, this`pendingTarget
      ensures Valid()
      ensures !withTransition ==>
        bgCurrent == Some(fileName) && bgNext == Some(fileName) && storedSelection == Some(fileName)
        && fading == old(fading) && pendingTarget == old(pendingTarget)
      ensures withTransition ==>
        bgNext == Some(fileName) && fading && pendingTarget == Some(fileName)
        && bgCurrent == old(bgCurrent) && storedSelection == old(storedSelection)
    {
      if !withTransition {
        bgCurrent := Some(fileName);
        bgNext := Some(fileName);
        storedSelection := Some(fileName);
        return;
      }
      bgNext := Some(fileName);
      fading := true;
      pendingTarget := Some(fileName);
    }

    /**
     * The transition timeout fires: the current layer becomes the target,
     * the target is stored, the crossfade ends and nothing is pending.
     */
    method CommitTransition()
      requires Valid()
      modifies this`bgCurrent, this`bgNext, this`storedSelection, this`fading, this`pendingTarget
      ensures Valid()
      ensures old(pendingTarget).Some? ==>
        bgCurrent == old(pendingTarget) && bgNext == old(pendingTarget)
        && storedSelection == old(pendingTarget) && !fading && pendingTarget == None
      ensures old(pendingTarget).None? ==>
        bgCurrent == old(bgCurrent) && bgNext == old(bgNext) && storedSelection == old(storedSelection)
        && fading == old(fading) && pendingTarget == None
    {
      if pendingTarget.Some? {
        var fileName := pendingTarget.value;
        bgCurrent := Some(fileName);
        bgNext := Some(fileName);
        storedSelection := Some(fileName);
        fading := false;
        pendingTarget := None;
      }
    }

    /** toggleBackgroundButtonsState: previous/next are disabled iff there is at most one background. */
    method ToggleButtonsState()
      modifies this`navButtonsDisabled
      ensures navButtonsDisabled <==> |catalog| <= 1
    {
      var hasOptions := |catalog| > 1;
      navButtonsDisabled := !hasOptions;
    }

    /**
     * changeBackground: nothing on an empty catalog; otherwise move by
     * `step` modulo the catalog length and start a transition to that entry.
     * The callers step by +1 or -1, which the precondition covers.
     */
    method ChangeBackground(step: int)
      requires Valid()
      requires |catalog| > 0 ==> step >= -|catalog|
      modifies this`currentIndex, this`bgCurrent, this`bgNext, this`storedSelection, this`fading, this`pendingTarget
      ensures Valid()
      ensures |catalog| == 0 ==>
        currentIndex == old(currentIndex) && bgNext == old(bgNext) && fading == old(fading)
        && pendingTarget == old(pendingTarget)
      ensures |catalog| > 0 ==>
        0 <= currentIndex < |catalog| && currentIndex == (old(currentIndex) + step) % |catalog|
        && currentIndex == NextIndex(old(currentIndex), step, |catalog|)
        && bgNext == Some(catalog[currentIndex]) && fading && pendingTarget == Some(catalog[currentIndex])
      ensures bgCurrent == old(bgCurrent) && storedSelection == old(storedSelection)
    {
      if |catalog| == 0 {
        return;
      }
      NextIndexInRange(currentIndex, step, |catalog|);
      currentIndex := NextIndex(currentIndex, step, |catalog|);
      ApplyBackground(catalog[currentIndex], true);
    }

    /** The auto-switch interval fires: advance by one when it is armed. */
    method AutoSwitchTick()
      requires Valid()
      modifies this`currentIndex, this`bgCurrent, this`bgNext, this`storedSelection, this`fading, this`pendingTarget
      ensures Valid()
      ensures old(autoSwitch).None? ==>
        currentIndex == old(currentIndex) && bgNext == old(bgNext) && fading == old(fading)
        && pendingTarget == old(pendingTarget)
      ensures old(autoSwitch).Some? ==>
        currentIndex == (old(currentIndex) + 1) % |catalog|
        && bgNext == Some(catalog[currentIndex]) && fading && pendingTarget == Some(catalog[currentIndex])
      ensures bgCurrent == old(bgCurrent) && storedSelection == old(storedSelection)
    {
      if autoSwitch.Some? {
        ChangeBackground(1);
      }
    }

    /**
     * startBackgroundAutoSwitch: with more than one background, replace any
     * armed interval by one with the current delay; otherwise leave the
     * handle alone, which the invariant shows is then unarmed.
     */
    method StartAutoSwitch()
      requires Valid()
      modifies this`autoSwitch
      ensures Valid()
      ensures autoSwitch == if |catalog| > 1 then Some(delay) else None
    {
      if |catalog| <= 1 {
        return;
      }
      autoSwitch := Some(delay);
    }

    /**
     * toggleBackgroundAutoSwitch: a running rotation stops and the button
     * shows "stopped"; a stopped one is started and the button shows "running".
     */
    method ToggleAutoSwitch()
      requires Valid()
      modifies this`autoSwitch, this`stopButtonStopped
      ensures Valid()
      ensures old(autoSwitch).Some? ==> autoSwitch == None && stopButtonStopped
      ensures old(autoSwitch).None? ==>
        autoSwitch == (if |catalog| > 1 then Some(delay) else None) && !stopButtonStopped
    {
      if autoSwitch.Some? {
        autoSwitch := None;
        stopButtonStopped := true;
        return;
      }
      StartAutoSwitch();
      stopButtonStopped := false;
    }

    /**
     * The interval selector changes: store the normalised delay and restart
     * the rotation with it exactly when it was running.
     */
    method IntervalChanged(value: Delay.Num)
      requires Valid()
      modifies this`delay, this`storedDelay, this`autoSwitch
      ensures Valid()
      ensures delay == Delay.Normalize(value) && storedDelay == Some(Delay.Finite(delay))
      ensures old(autoSwitch).Some? ==> autoSwitch == Some(delay)
      ensures old(autoSwitch).None? ==> autoSwitch == None
    {
      var wasRunning := autoSwitch.Some?;
      SetDelay(value);
      if wasRunning {
        StartAutoSwitch();
      }
    }

    /**
     * The state setup leaves once the scan has answered `found`, with
     * `saved` the selection stored beforehand: the deduplicated catalog (or
     * the single default file), positioned at the saved selection when it is
     * in it, shown on both layers and stored, the buttons enabled exactly
     * when there is a choice, and the rotation armed with the current delay
     * exactly then.
     */
    ghost predicate Installed(found: seq<string>, saved: Option<string>)
      reads this
    {
      catalog == Catalog.BuildCatalog(found)
      && currentIndex == Catalog.StartIndex(catalog, saved)
      && bgCurrent == Some(catalog[currentIndex]) && bgNext == Some(catalog[currentIndex])
      && storedSelection == Some(catalog[currentIndex])
      && (navButtonsDisabled <==> |catalog| <= 1) && (stopButtonDisabled <==> |catalog| <= 1)
      && !stopButtonStopped
      && autoSwitch == (if |catalog| > 1 then Some(delay) else None)
    }

    /**
     * setupBackgroundSwitcher, without the DOM wiring: read the stored
     * delay, scan, then install the catalog. Without the previous/next
     * buttons nothing happens. It runs once, on page load, before any
     * auto-switch interval exists.
     */
    method Setup(hasNavButtons: bool, imageExists: string -> bool)
      requires Valid() && autoSwitch == None
      modifies this
      ensures Valid()
      ensures !hasNavButtons ==> unchanged(this)
      ensures hasNavButtons ==>
        delay == Delay.Normalize(SavedDelayOrDefault(old(storedDelay)))
        && storedDelay == Some(Delay.Finite(delay))
        && Installed(Discovery.Discover(imageExists), old(storedSelection))
      ensures fading == old(fading) && pendingTarget == old(pendingTarget)
    {
      if !hasNavButtons {
        return;
      }
      var savedAutoSwitchDelay := storedDelay;
      SetDelay(SavedDelayOrDefault(savedAutoSwitchDelay));
      var found := Discovery.DiscoverBackgrounds(imageExists);
      InstallCatalog(found);
    }

    /**
     * The rest of setup, once the scan has answered: build the catalog,
     * resume at the stored selection, show it without a transition, set the
     * buttons and start the rotation.
     */
    method InstallCatalog(found: seq<string>)
      requires Valid() && autoSwitch == None
      modifies this`catalog, this`currentIndex, this`bgCurrent, this`bgNext, this`storedSelection,
        this`fading, this`pendingTarget, this`navButtonsDisabled, this`autoSwitch,
        this`stopButtonDisabled, this`stopButtonStopped
      ensures Valid()
      ensures Installed(found, old(storedSelection))
      ensures fading == old(fading) && pendingTarget == old(pendingTarget)
    {
      var backgrounds := Catalog.BuildCatalog(found);
      var savedBackground := storedSelection;
      catalog, currentIndex := backgrounds, Catalog.StartIndex(backgrounds, savedBackground);
      ApplyBackground(catalog[currentIndex], false);
      ToggleButtonsState();
      StartAutoSwitch();

      stopButtonDisabled := |catalog| <= 1;
      stopButtonStopped := false;
    }
  }

  /**
   * Two transitions before the first one commits: only the second stays
   * pending, and the commit shows and stores the second file.
   */
  method NewerTransitionWins(s: BackgroundSwitcher, first: string, second: string)
    requires s.Valid()
    modifies s
    ensures s.Valid()
    ensures s.bgCurrent == Some(second) && s.bgNext == Some(second)
    ensures s.storedSelection == Some(second) && !s.fading && s.pendingTarget == None
  {
    s.ApplyBackground(first, true);
    s.ApplyBackground(second, true);
    assert s.pendingTarget == Some(second);
    s.CommitTransition();
  }

  /** With more than one background, toggling twice restores the rotation and its period. */
  method ToggleTwiceRestores(s: BackgroundSwitcher)
    requires s.Valid() && |s.catalog| > 1
    requires s.autoSwitch.Some? ==> s.autoSwitch.value == s.delay
    modifies s
    ensures s.Valid()
    ensures s.autoSwitch == old(s.autoSwitch)
  {
    s.ToggleAutoSwitch();
    s.ToggleAutoSwitch();
  }

  /** Next then previous comes back to the same entry. */
  method NextThenPreviousRestores(s: BackgroundSwitcher)
    requires s.Valid() && |s.catalog| > 0
    modifies s
    ensures s.Valid() && s.catalog == old(s.catalog)
    ensures s.currentIndex == old(s.currentIndex)
    ensures s.pendingTarget == Some(s.catalog[s.currentIndex])
  {
    ghost var start := s.currentIndex;
    s.ChangeBackground(1);
    s.ChangeBackground(-1);
    NextThenPrevious(start, |s.catalog|);
  }
}
