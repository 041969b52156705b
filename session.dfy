/**
 * What one run of the typing loop or of the erasing loop produces, in closed form.
 *
 * Cancellation is cooperative: it can only land where the coroutine checks for it. A session
 * is given `stop`: `None` means it is never cancelled; `Some(0)` means its job is already
 * cancelled when `withContext` is entered; `Some(k)` with k >= 1 means the cancellation lands
 * during the `delay` that follows the k-th tick. A loop of n ticks is cancelled when the stop
 * point is one it reaches, that is k <= n; a later cancellation finds the session finished.
 * The offset the random helper yields for tick i is `wobble(i)`.
 *
 * Every tick is treated as a cancellation point and every delay as one that ends: a `delay`
 * of zero or less, which returns without checking for cancellation, and a `delay` that never
 * returns are not distinguished.
 */
module Session {
  import opened Wrappers
  import opened Timing
  import opened StringReplace

  /** A loop of `n` ticks reaches the stop point. */
  predicate Cancelled(stop: Option<nat>, n: nat)
  {
    stop.Some? && stop.value <= n
  }

  /** How many ticks a loop of `n` ticks runs before it stops or finishes. */
  function TicksRun(stop: Option<nat>, n: nat): (k: nat)
    ensures k <= n
    ensures k < n ==> Cancelled(stop, n)
  {
    if Cancelled(stop, n) then stop.value else n
  }

  /** The stop point as seen by a loop that starts after `n` ticks of the same session. */
  function ShiftStop(stop: Option<nat>, n: nat): (r: Option<nat>)
    ensures r.Some? ==> stop.Some? && r.value >= 1 && stop.value == n + r.value
    ensures stop.Some? && stop.value > n ==> r.Some?
  {
    if stop.Some? && stop.value > n then Some(stop.value - n) else None
  }

  /** The random offsets as seen by a loop that starts after `n` ticks of the same session. */
  function ShiftWobble(wobble: nat -> Long, n: nat): nat -> Long
  {
    (i: nat) => wobble(n + i)
  }

  /** The delays of the first `k` ticks of an `action` loop, in tick order. */
  function TickDelays(a: Attrs, action: Action, wobble: nat -> Long, k: nat): (d: seq<Long>)
    ensures |d| == k
  {
    if k == 0 then [] else TickDelays(a, action, wobble, k - 1) + [GetDelay(a, action, wobble(k - 1))]
  }

  /** Tick i waits the delay computed from the i-th random offset. */
  lemma {:induction false} TickDelaysAt(a: Attrs, action: Action, wobble: nat -> Long, k: nat)
    ensures forall i :: 0 <= i < k ==> TickDelays(a, action, wobble, k)[i] == GetDelay(a, action, wobble(i))
  {
    if k > 0 {
      TickDelaysAt(a, action, wobble, k - 1);
    }
  }

  /** The displayed text after each of the first `k` typing ticks that start from `kept`. */
  function TypingTrace(kept: string, toType: string, k: nat): (r: seq<string>)
    requires k <= |toType|
    ensures |r| == k
  {
    if k == 0 then [] else TypingTrace(kept, toType, k - 1) + [kept + toType[..k]]
  }

  /** After typing tick i the view shows `kept` and the first i + 1 characters of `toType`. */
  lemma {:induction false} TypingTraceAt(kept: string, toType: string, k: nat)
    requires k <= |toType|
    ensures forall i :: 0 <= i < k ==> TypingTrace(kept, toType, k)[i] == kept + toType[..i + 1]
  {
    if k > 0 {
      TypingTraceAt(kept, toType, k - 1);
    }
  }

  /** The displayed text after each of the first `k` erasing ticks that start from `s`. */
  function EraseTrace(s: string, k: nat): (r: seq<string>)
    requires k <= |s|
    ensures |r| == k
  {
    if k == 0 then [] else EraseTrace(s, k - 1) + [s[..|s| - k]]
  }

  /** After erasing tick i the view shows `s` without its last i + 1 characters. */
  lemma {:induction false} EraseTraceAt(s: string, k: nat)
    requires k <= |s|
    ensures forall i :: 0 <= i < k ==> EraseTrace(s, k)[i] == s[..|s| - 1 - i]
  {
    if k > 0 {
      EraseTraceAt(s, k - 1);
    }
  }

  /** One typing tick appends the next character and records the text it leaves. */
  lemma TypingTick(kept: string, toType: string, i: nat)
    requires i < |toType|
    ensures kept + toType[..i] + [toType[i]] == kept + toType[..i + 1]
    ensures TypingTrace(kept, toType, i + 1) == TypingTrace(kept, toType, i) + [kept + toType[..i + 1]]
  {
    assert toType[..i + 1] == toType[..i] + [toType[i]];
  }

  /** One erasing tick drops the last character of what is left and records the text it leaves. */
  lemma ErasingTick(s: string, i: nat)
    requires i < |s|
    ensures s[..|s| - i][..|s| - i - 1] == s[..|s| - (i + 1)]
    ensures EraseTrace(s, i + 1) == EraseTrace(s, i) + [s[..|s| - (i + 1)]]
  {
  }

  /** A typing loop whose stop point is tick `k` ends there, with nothing returned. */
  lemma TypeLoopStopsAt(kept: string, toType: string, a: Attrs, wobble: nat -> Long, k: nat)
    requires 1 <= k <= |toType|
    ensures TypeLoop(kept, toType, a, wobble, Some(k))
         == Typed(kept + toType[..k], toType, None, TypingTrace(kept, toType, k), TickDelays(a, Type, wobble, k))
  {
  }

  /** A typing loop that is not cancelled types all of `toType` and returns the text it shows. */
  lemma TypeLoopRunsOut(kept: string, toType: string, a: Attrs, wobble: nat -> Long, stop: Option<nat>)
    requires !Cancelled(stop, |toType|)
    ensures TypeLoop(kept, toType, a, wobble, stop)
         == Typed(kept + toType, toType, Some(kept + toType),
                  TypingTrace(kept, toType, |toType|), TickDelays(a, Type, wobble, |toType|))
  {
    assert toType[..|toType|] == toType;
  }

  /** An erasing loop whose stop point is tick `k` ends there, not completed. */
  lemma EraseStopsAt(shown: string, a: Attrs, wobble: nat -> Long, k: nat)
    requires k <= |shown|
    ensures EraseOutcome(shown, a, wobble, Some(k))
         == Erased(shown[..|shown| - k], false, EraseTrace(shown, k), TickDelays(a, Erase, wobble, k))
  {
  }

  /** An erasing loop that is not cancelled erases everything and completes. */
  lemma EraseRunsOut(shown: string, a: Attrs, wobble: nat -> Long, stop: Option<nat>)
    requires !Cancelled(stop, |shown|)
    ensures EraseOutcome(shown, a, wobble, stop)
         == Erased([], true, EraseTrace(shown, |shown|), TickDelays(a, Erase, wobble, |shown|))
  {
  }

  /** A new `type` request continues the target when it names the remembered text and something is shown. */
  predicate Continues(t: string, prior: string, shown: string)
  {
    t == prior && shown != []
  }

  /** The text the typing loop starts from and the text it types. */
  datatype Plan = Plan(kept: string, toType: string)

  /**
   * The continue-or-restart decision of `startTyping`. Continuing keeps the shown text and
   * types what `replace` leaves of the request; restarting clears the text and types it all.
   */
  function Resolve(t: string, prior: string, shown: string): (p: Plan)
    ensures Continues(t, prior, shown) <==> p.kept != []
    ensures p.kept != [] ==> p.toType == RemoveAll(t, shown)
    ensures p.kept == [] || p.kept == shown
    ensures p.kept != [] ==> t == prior && |p.toType| <= |t|
    ensures p.kept == [] ==> p.toType == t
  {
    if Continues(t, prior, shown) then Plan(shown, RemoveAll(t, shown)) else Plan([], t)
  }

  /** The fields and the results of one typing session. */
  datatype Typed = Typed(text: string, textToType: string, result: Option<string>,
                         trace: seq<string>, delays: seq<Long>)

  /** The `for` loop of `startTyping`: type `toType` after `kept`, one character per tick. */
  function TypeLoop(kept: string, toType: string, a: Attrs, wobble: nat -> Long, stop: Option<nat>): Typed
  {
    var k := TicksRun(stop, |toType|);
    var text := kept + toType[..k];
    Typed(text, toType, if Cancelled(stop, |toType|) then None else Some(text),
          TypingTrace(kept, toType, k), TickDelays(a, Type, wobble, k))
  }

  /** `startTyping(t)` run on a view showing `shown` that remembers `prior`. */
  function TypingOutcome(t: string, prior: string, shown: string, a: Attrs,
                         wobble: nat -> Long, stop: Option<nat>): Typed
  {
    if stop == Some(0) then Typed(shown, prior, None, [], [])
    else
      var p := Resolve(t, prior, shown);
      TypeLoop(p.kept, p.toType, a, wobble, stop)
  }

  /** The fields and the results of one erasing session. */
  datatype Erased = Erased(text: string, completed: bool, trace: seq<string>, delays: seq<Long>)

  /** `eraseText()` run on a view showing `shown`. */
  function EraseOutcome(shown: string, a: Attrs, wobble: nat -> Long, stop: Option<nat>): Erased
  {
    var k := TicksRun(stop, |shown|);
    Erased(shown[..|shown| - k], !Cancelled(stop, |shown|), EraseTrace(shown, k),
           TickDelays(a, Erase, wobble, k))
  }

  /**
   * Typing that is not cancelled shows `shown + replace(t, shown)` when it continues and `t`
   * when it restarts, and returns exactly the text it leaves on display.
   */
  lemma TypingCompleted(t: string, prior: string, shown: string, a: Attrs,
                        wobble: nat -> Long, stop: Option<nat>)
    requires !Cancelled(stop, |Resolve(t, prior, shown).toType|)
    ensures var o := TypingOutcome(t, prior, shown, a, wobble, stop);
            o.result == Some(o.text) &&
            (Continues(t, prior, shown) ==> o.text == shown + RemoveAll(t, shown) && o.textToType == RemoveAll(t, shown)) &&
            (!Continues(t, prior, shown) ==> o.text == t && o.textToType == t) &&
            |o.trace| == |o.delays| == |o.textToType|
  {
    var p := Resolve(t, prior, shown);
    assert p.toType[..|p.toType|] == p.toType;
  }

  /**
   * Typing cancelled after k ticks shows the starting text plus the first k characters of the
   * new `textToType`, and returns nothing.
   */
  lemma TypingCancelled(t: string, prior: string, shown: string, a: Attrs,
                        wobble: nat -> Long, k: nat)
    requires 1 <= k <= |Resolve(t, prior, shown).toType|
    ensures var o := TypingOutcome(t, prior, shown, a, wobble, Some(k));
            var p := Resolve(t, prior, shown);
            o.result == None && o.textToType == p.toType && o.text == p.kept + p.toType[..k] &&
            |o.trace| == |o.delays| == k
  {
  }

  /**
   * Characters are appended in string order: each tick adds exactly the next character of
   * `textToType`, every intermediate text is a prefix of the final one, and the last tick
   * leaves the final text (nothing is appended after the stop).
   */
  lemma {:induction false} TypingAppendsInOrder(t: string, prior: string, shown: string, a: Attrs,
                                                wobble: nat -> Long, stop: Option<nat>)
    ensures var o := TypingOutcome(t, prior, shown, a, wobble, stop);
            var p := Resolve(t, prior, shown);
            (forall i :: 0 <= i < |o.trace| ==> o.trace[i] <= o.text) &&
            (forall i :: 0 < i < |o.trace| ==> o.trace[i] == o.trace[i - 1] + [p.toType[i]]) &&
            (o.trace != [] ==> o.trace[|o.trace| - 1] == o.text) &&
            |o.delays| == |o.trace| &&
            (forall i :: 0 <= i < |o.delays| ==> o.delays[i] == GetDelay(a, Type, wobble(i)))
  {
    var o := TypingOutcome(t, prior, shown, a, wobble, stop);
    var p := Resolve(t, prior, shown);
    if stop != Some(0) {
      var k := TicksRun(stop, |p.toType|);
      TypingTraceAt(p.kept, p.toType, k);
      TickDelaysAt(a, Type, wobble, k);
      forall i | 0 <= i < |o.trace|
        ensures o.trace[i] <= o.text
      {
        assert o.trace[i] == p.kept + p.toType[..i + 1];
        assert p.toType[..k] == p.toType[..i + 1] + p.toType[i + 1..k];
        assert o.text == o.trace[i] + p.toType[i + 1..k];
      }
      forall i | 0 < i < |o.trace|
        ensures o.trace[i] == o.trace[i - 1] + [p.toType[i]]
      {
        assert p.toType[..i + 1] == p.toType[..i] + [p.toType[i]];
      }
    }
  }

  /**
   * Erasing removes exactly the last character per tick: run to completion it takes as many
   * ticks as the text has characters and leaves the text empty; cancelled, it leaves a prefix.
   * Every intermediate text is a prefix of the original.
   */
  lemma EraseShrinksToEmpty(shown: string, a: Attrs, wobble: nat -> Long, stop: Option<nat>)
    ensures var e := EraseOutcome(shown, a, wobble, stop);
            e.text <= shown && |e.trace| == |e.delays| &&
            (e.completed ==> e.text == [] && |e.trace| == |shown|) &&
            (!e.completed ==> stop.Some? && |e.text| == |shown| - stop.value) &&
            (forall i :: 0 <= i < |e.trace| ==> e.trace[i] <= shown && |e.trace[i]| == |shown| - 1 - i) &&
            (forall i :: 0 <= i < |e.delays| ==> e.delays[i] == GetDelay(a, Erase, wobble(i)))
  {
    var k := TicksRun(stop, |shown|);
    EraseTraceAt(shown, k);
    TickDelaysAt(a, Erase, wobble, k);
  }

  /**
   * `type` and `erase` empty `textToType` when a job exists, so with a job the continue branch
   * is taken only for an empty request, which leaves the shown text as it is.
   */
  lemma {:induction false} ContinueWithJob(t: string, hadJob: bool, prior: string, shown: string)
    requires Continues(t, if hadJob then [] else prior, shown)
    ensures hadJob ==> t == [] && Resolve(t, [], shown) == Plan(shown, [])
  {
    if hadJob {
      assert RemoveAll([], shown) == [];
    }
  }

  /**
   * Continuing from a shown text that is the target's beginning and does not occur again in
   * the rest finishes with exactly the target.
   */
  lemma {:induction false} ContinueFinishesTarget(shown: string, rest: string)
    requires shown != []
    requires forall j :: !OccursAt(rest, shown, j)
    ensures var p := Resolve(shown + rest, shown + rest, shown);
            p.kept + p.toType == shown + rest && p.toType == rest
  {
    RemoveAllLeading(shown, rest);
    RemoveAllWithoutOccurrence(rest, shown);
  }

  /**
   * Because `replace` removes every occurrence, continuing "abab" from "ab" types nothing:
   * the text stays "ab" and the remembered text becomes "".
   */
  lemma ContinueCanFallShort()
    ensures Resolve("abab", "abab", "ab") == Plan("ab", [])
  {
    RemoveAllDoubled("ab");
  }

  /** Continuing a target that is already fully shown types nothing and keeps it on display. */
  lemma ContinueFullyShown(s: string)
    requires s != []
    ensures Resolve(s, s, s) == Plan(s, [])
  {
    RemoveAllSelf(s);
  }

  /**
   * `eraseAndType(t)` that is not cancelled ends showing `t`: erasing leaves nothing shown, so
   * typing restarts and types `t` in full, whatever was remembered.
   */
  lemma EraseThenTypeShowsTarget(shown: string, t: string, prior: string, a: Attrs,
                                 wobble: nat -> Long, stop: Option<nat>)
    requires stop.None? || stop.value > |shown| + |t|
    ensures EraseOutcome(shown, a, wobble, stop).completed
    ensures var o := TypingOutcome(t, prior, [], a, ShiftWobble(wobble, |shown|), ShiftStop(stop, |shown|));
            o.result == Some(t) && o.text == t && o.textToType == t
  {
    TypingCompleted(t, prior, [], a, ShiftWobble(wobble, |shown|), ShiftStop(stop, |shown|));
  }
}
