/**
 * The letter-by-letter typing effect: each step shows one more character of
 * the element's full text and, while text remains, schedules the next step.
 * The full text is cached on the element, so typing again restarts from the
 * original text rather than from whatever is on screen.
 */
module Typing {
  import opened Wrappers

  /** What one typing run has shown, how far it is, and whether a step is scheduled. */
  datatype Progress = Progress(shown: string, index: nat, scheduled: bool)

  /** The states a run over `full` can be in. */
  predicate Consistent(full: string, p: Progress)
  {
    p.index <= |full| && p.shown == full[..p.index] && (p.scheduled <==> 0 < p.index < |full|)
  }

  /** typeNext: show the first index + 1 characters and schedule again while text remains. */
  function TypeNext(full: string, p: Progress): (q: Progress)
    requires p.index < |full|
    ensures Consistent(full, q)
    ensures q.index == p.index + 1
  {
    Progress(full[..p.index + 1], p.index + 1, p.index + 1 < |full|)
  }

  /** An invocation: clear the text, then take the first step at once unless the text is empty. */
  function Start(full: string): (p: Progress)
    ensures Consistent(full, p)
    ensures full == [] ==> p == Progress("", 0, false)
    ensures full != [] ==> p.index == 1
  {
    var cleared := Progress("", 0, false);
    if |full| > 0 then TypeNext(full, cleared) else cleared
  }

  /** The state after `k` more timer firings; a firing with nothing scheduled does nothing. */
  function AfterTicks(full: string, p: Progress, k: nat): (q: Progress)
    requires Consistent(full, p)
    ensures Consistent(full, q)
    ensures p.index <= q.index <= p.index + k
    ensures !p.scheduled ==> q == p
    decreases k
  {
    if k == 0 || !p.scheduled then p else AfterTicks(full, TypeNext(full, p), k - 1)
  }

  function Min(a: nat, b: nat): nat
  {
    if a <= b then a else b
  }

  /** From any consistent state, k firings advance the shown prefix by k, up to the whole text. */
  lemma {:induction false} AfterTicksAdvances(full: string, p: Progress, k: nat)
    requires Consistent(full, p) && 0 < p.index
    ensures var m := Min(p.index + k, |full|);
      AfterTicks(full, p, k) == Progress(full[..m], m, m < |full|)
    decreases k
  {
    if k > 0 && p.scheduled {
      AfterTicksAdvances(full, TypeNext(full, p), k - 1);
    }
  }

  /**
   * After an invocation and k firings, the first k + 1 characters are shown
   * (all of them once k + 1 reaches the length), and a step is still
   * scheduled exactly while text remains.
   */
  lemma TypedAfter(full: string, k: nat)
    requires full != []
    ensures var m := Min(k + 1, |full|);
      AfterTicks(full, Start(full), k) == Progress(full[..m], m, m < |full|)
  {
    AfterTicksAdvances(full, Start(full), k);
  }

  /** Once |full| - 1 firings have run after the invocation, the whole text is shown and nothing is scheduled. */
  lemma TypingCompletes(full: string, k: nat)
    requires full != [] && k >= |full| - 1
    ensures AfterTicks(full, Start(full), k) == Progress(full, |full|, false)
  {
    TypedAfter(full, k);
  }

  /** An empty text shows nothing and schedules nothing, however many firings follow. */
  lemma EmptyTextSchedulesNothing(k: nat)
    ensures AfterTicks("", Start(""), k) == Progress("", 0, false)
  {
  }

  /**
   * The text a run types: the cached text when it is non-empty, otherwise
   * what the element shows. A run types nothing only on an empty element.
   */
  function FullTextOf(cached: Option<string>, textContent: string): (full: string)
    ensures full == "" ==> textContent == ""
    ensures full == textContent || cached == Some(full)
  {
    if cached.Some? && cached.value != "" then cached.value else textContent
  }

  /**
   * Caching is stable: once a non-empty text is cached, every later run
   * types that text, whatever the element shows by then.
   */
  lemma CachedTextIsStable(cached: Option<string>, textContent: string, later: string)
    requires FullTextOf(cached, textContent) != ""
    ensures FullTextOf(Some(FullTextOf(cached, textContent)), later) == FullTextOf(cached, textContent)
  {
  }

  /** An element being typed into, with its cached full text and the state of its current run. */
  class TypedElement {
    /** `textContent`. */
    var textContent: string
    /** `dataset.fullText`; None until the first run caches it. */
    var datasetFullText: Option<string>
    /** Whether `_typingTimeout` is armed. */
    var timeoutPending: bool
    /** The current run's `fullText` and `index`. */
    var fullText: string
    var index: nat

    ghost predicate Valid()
      reads this
    {
      Consistent(fullText, State())
    }

    /** The current run as a specification value. */
    function State(): Progress
      reads this
    {
      Progress(textContent, index, timeoutPending)
    }

    /** The cache holds this run's text, and an empty run left the element empty. */
    ghost predicate Cached()
      reads this
    {
      datasetFullText == Some(fullText) && (fullText == "" ==> textContent == "")
    }

    /** An element showing `text`, possibly with a text cached by an earlier page state. */
    constructor (text: string, cached: Option<string>)
      ensures Valid()
      ensures textContent == text && datasetFullText == cached && !timeoutPending
    {
      textContent := text;
      datasetFullText := cached;
      timeoutPending := false;
      fullText := text;
      index := |text|;
    }

    /**
     * typeElementLetterByLetter: pick and cache the full text, cancel the
     * previous run's timer, clear the element and take the first step.
     */
    method TypeLetterByLetter()
      modifies this
      ensures Valid() && Cached()
      ensures fullText == FullTextOf(old(datasetFullText), old(textContent))
      ensures State() == Start(fullText)
      ensures old(Cached()) ==> fullText == old(fullText)
    {
      var full := FullTextOf(datasetFullText, textContent);
      datasetFullText := Some(full);
      timeoutPending := false;
      textContent := "";
      index := 0;
      fullText := full;
      if |full| > 0 {
        TypeNextStep();
      }
    }

    /** The run's step: one more character, and a new timer while text remains. */
    method TypeNextStep()
      requires index < |fullText|
      modifies this`textContent, this`index, this`timeoutPending
      ensures State() == TypeNext(fullText, old(State()))
    {
      textContent := fullText[..index + 1];
      index := index + 1;
      timeoutPending := index < |fullText|;
    }

    /** The typing timer fires: take the next step when one is scheduled. */
    method Tick()
      requires Valid()
      modifies this`textContent, this`index, this`timeoutPending
      ensures Valid()
      ensures State() == AfterTicks(fullText, old(State()), 1)
      ensures old(Cached()) ==> Cached()
    {
      if timeoutPending {
        timeoutPending := false;
        TypeNextStep();
      }
    }
  }

  /**
   * Typing again part-way through a run restarts from the text the first
   * run chose, not from the partial text on screen.
   */
  method RetypeRestarts(e: TypedElement)
    modifies e
    ensures e.fullText == FullTextOf(old(e.datasetFullText), old(e.textContent))
    ensures e.State() == Start(e.fullText)
  {
    e.TypeLetterByLetter();
    e.Tick();
    e.TypeLetterByLetter();
  }
}
