# TypeWriterView typing engine, modelled in Dafny

This project models the typing and erasing engine of the Android widget `TypeWriterView`.
The widget shows a text one character at a time ("typewriter effect") and can erase it again
one character at a time. The engine keeps four pieces of state:

- `text`, the displayed text;
- `textToType`, the remembered text of the last typing run;
- the handle of the active job (`job != null` is the field `hasJob`);
- `options`, an immutable `Attrs` record (typing delay, erase delay, wobble amplitude, wobble
  switch) that the setters replace by a copy.

Modules, one per concern of `TypeWriterView.kt`:

- `Wrappers` (wrappers.dfy): `Option`, for Kotlin's nullable strings and `?:`.
- `StringReplace` (replace.dfy): Kotlin's `String.replace(pat, "")`. It is defined once as a
  character-by-character scan (`RemoveAll`) and once as the `indexOf`-driven loop of the Kotlin
  library (`RemoveFrom`). The two are proved equal on every input.
- `Timing` (timing.dfy): `Attrs`, its defaults, the two setters as copies, and `getDelay`.
  Delays are Kotlin `Long`, with 64-bit wrap-around written out. The offset is the helper's result after
  `.toLong()`, so it is a `Long`; the amplitude is the `Int` that attribute parsing reads.
- `Session` (session.dfy): the closed-form outcome of one typing run (`TypingOutcome`) and of
  one erasing run (`EraseOutcome`), the continue-or-restart decision (`Resolve`), and the
  lemmas about them.
- `TypeWriter` (view.dfy): the class `TypeWriterView`, whose methods update the fields in place.
  The erasing `while` loop and the typing `for` loop are real loops. Each method is proved
  against the `Session` functions. A few client methods at the end walk through scenarios.

Suspension and cancellation are modelled without concurrency:

- Every `delay(getDelay(...))` is recorded as the delay value in an out-parameter `delays`.
- The text after every tick is recorded in `trace`.
- The random offset of tick `i` is `wobble(i)`, an input.
- Cancellation is an input `stop`. `None` means the session is never cancelled. `Some(0)` means
  the job is already cancelled when `withContext` starts. `Some(k)` means the cancellation lands
  in the `delay` after tick `k`. Every tick counts as a cancellation point, and every delay as one
  that ends (see "## Left out").
- A cancelled session returns `None`, the model of the `CancellationException`.
- The canceller's own field updates (`cancel`, or the next `type`'s `clearAndCancel`) are
  separate method calls.

## Model

| member | source | states |
|---|---|---|
| `Wrappers.Option.GetOr` | lib/src/main/java/com/roomroster/typewriter/TypeWriterView.kt:99-100 | `x ?: default` yields the value when present and the default when missing |
| `StringReplace.RemoveAll` | lib/src/main/java/com/roomroster/typewriter/TypeWriterView.kt:114 | `replace(pat, "")` never lengthens the text |
| `StringReplace.IndexOf` | lib/src/main/java/com/roomroster/typewriter/TypeWriterView.kt:114 | `indexOf(pat)` returns an index at which the whole of `pat` still fits in the text |
| `StringReplace.IndexOfOccurs` | lib/src/main/java/com/roomroster/typewriter/TypeWriterView.kt:114 | the index `indexOf` returns is an occurrence of `pat` |
| `StringReplace.IndexOfIsFirst` | lib/src/main/java/com/roomroster/typewriter/TypeWriterView.kt:114 | no occurrence comes before the index `indexOf` returns, and it reports none exactly when `pat` does not occur |
| `StringReplace.RemoveAllUpTo` | lib/src/main/java/com/roomroster/typewriter/TypeWriterView.kt:114 | `replace` keeps every character before the first occurrence of `pat` |
| `StringReplace.RemoveAllSkips` | lib/src/main/java/com/roomroster/typewriter/TypeWriterView.kt:114 | an occurrence at the scan position is skipped as a whole |
| `StringReplace.RemoveFrom` | lib/src/main/java/com/roomroster/typewriter/TypeWriterView.kt:114 | the `indexOf`-driven `replace` loop never lengthens the text; proved equal to `RemoveAll` by `RemoveFromIsRemoveAll` |
| `StringReplace.RemoveFromIsRemoveAll` | lib/src/main/java/com/roomroster/typewriter/TypeWriterView.kt:114 | the `indexOf`-driven removal loop and the character scan give the same text on every input |
| `StringReplace.RemoveAllWithoutOccurrence` | lib/src/main/java/com/roomroster/typewriter/TypeWriterView.kt:114 | a text in which `pat` never occurs comes back unchanged |
| `StringReplace.RemoveAllLeading` | lib/src/main/java/com/roomroster/typewriter/TypeWriterView.kt:114 | a leading occurrence is removed and the scan continues after it |
| `StringReplace.RemoveAllSelf` | lib/src/main/java/com/roomroster/typewriter/TypeWriterView.kt:114 | removing a non-empty text from itself leaves "" |
| `StringReplace.RemoveAllDoubled` | lib/src/main/java/com/roomroster/typewriter/TypeWriterView.kt:114 | every occurrence is removed, not only the first: `(p + p).replace(p, "")` is "" |
| `Timing.DefaultAttrs` | lib/src/main/java/com/roomroster/typewriter/TypeWriterView.kt:146-166 | `Attrs()` is typing delay 120, erase delay 30, wobble 100, wobble off |
| `Timing.WithTypingDelay` | lib/src/main/java/com/roomroster/typewriter/TypeWriterView.kt:53-55 | `copy(typingDelay = d)` sets the typing delay and keeps the other three fields |
| `Timing.WithEraseDelay` | lib/src/main/java/com/roomroster/typewriter/TypeWriterView.kt:57-59 | `copy(eraseDelay = d)` sets the erase delay and keeps the other three fields |
| `Timing.WrapLong` | lib/src/main/java/com/roomroster/typewriter/TypeWriterView.kt:141 | `Long` addition: the exact sum when it fits in 64 bits, and equal to it modulo 2^64 always |
| `Timing.GetDelay` | lib/src/main/java/com/roomroster/typewriter/TypeWriterView.kt:134-142 | wobble off: the erase or typing delay of the action; wobble on: that base plus the offset (modulo 2^64), with no clamping |
| `Timing.DelayIgnoresAmplitude` | lib/src/main/java/com/roomroster/typewriter/TypeWriterView.kt:140-141 | a consequence of taking the helper's result as the input offset: the amplitude reaches the delay only as the helper's argument, so for a given offset it has no further effect |
| `Timing.DelayIsNotClamped` | lib/src/main/java/com/roomroster/typewriter/TypeWriterView.kt:140-141 | with the defaults, wobble on and offset -100, the erase delay is -70 |
| `Timing.SettersAreIndependent` | lib/src/main/java/com/roomroster/typewriter/TypeWriterView.kt:53-59 | a consequence of the setters' contracts: setting the typing delay leaves erase delays unchanged, and the other way round |
| `Session.TicksRun` | lib/src/main/java/com/roomroster/typewriter/TypeWriterView.kt:120-123 | a loop runs at most its length in ticks, and fewer only when cancelled |
| `Session.ShiftStop` | lib/src/main/java/com/roomroster/typewriter/TypeWriterView.kt:86-89 | a cancellation after the erase ticks of `eraseAndType` lands at the matching tick of its typing loop |
| `Session.TickDelays` | lib/src/main/java/com/roomroster/typewriter/TypeWriterView.kt:108 | one recorded delay per tick run |
| `Session.TickDelaysAt` | lib/src/main/java/com/roomroster/typewriter/TypeWriterView.kt:108 | the delay after tick i is `getDelay` with that tick's offset |
| `Session.TypingTrace` | lib/src/main/java/com/roomroster/typewriter/TypeWriterView.kt:120-123 | one displayed text per typing tick run |
| `Session.TypingTraceAt` | lib/src/main/java/com/roomroster/typewriter/TypeWriterView.kt:120-123 | after the i-th typing tick the text is the kept text plus the first i+1 characters |
| `Session.EraseTrace` | lib/src/main/java/com/roomroster/typewriter/TypeWriterView.kt:106-109 | one displayed text per erasing tick run |
| `Session.EraseTraceAt` | lib/src/main/java/com/roomroster/typewriter/TypeWriterView.kt:106-109 | after the i-th erasing tick the text is the original minus its last i+1 characters |
| `Session.TypeLoopStopsAt` | lib/src/main/java/com/roomroster/typewriter/TypeWriterView.kt:120-123 | a typing loop cancelled after tick k shows the kept text plus k characters, returns nothing, and recorded k ticks |
| `Session.TypeLoopRunsOut` | lib/src/main/java/com/roomroster/typewriter/TypeWriterView.kt:120-125 | an uncancelled typing loop shows and returns the kept text plus all of `textToType` |
| `Session.EraseStopsAt` | lib/src/main/java/com/roomroster/typewriter/TypeWriterView.kt:106-109 | an erasing loop cancelled after tick k leaves the text minus its last k characters and is not completed |
| `Session.EraseRunsOut` | lib/src/main/java/com/roomroster/typewriter/TypeWriterView.kt:106-109 | an uncancelled erasing loop leaves "" and completes after one tick per character |
| `Session.Continues` | lib/src/main/java/com/roomroster/typewriter/TypeWriterView.kt:113 | no contract of its own; the continue guard `t == textToType && currentText.isNotEmpty()`, which `Resolve` takes exactly when it holds |
| `Session.Resolve` | lib/src/main/java/com/roomroster/typewriter/TypeWriterView.kt:113-118 | it continues (keeps the shown text and types `t.replace(shown, "")`) exactly when `t` is the remembered text and something is shown; otherwise it keeps nothing and types the whole request |
| `Session.TypeLoop` | lib/src/main/java/com/roomroster/typewriter/TypeWriterView.kt:120-125 | no contract of its own; the closed form that `TypeEach` is proved equal to; properties in `TypeLoopStopsAt` and `TypeLoopRunsOut` |
| `Session.TypingOutcome` | lib/src/main/java/com/roomroster/typewriter/TypeWriterView.kt:112-126 | no contract of its own; the closed form that `StartTyping` and `Type` are proved equal to; properties in `TypingCompleted`, `TypingCancelled` and `TypingAppendsInOrder` |
| `Session.EraseOutcome` | lib/src/main/java/com/roomroster/typewriter/TypeWriterView.kt:105-110 | no contract of its own; the closed form that `EraseText` and `Erase` are proved equal to; properties in `EraseShrinksToEmpty`, `EraseStopsAt` and `EraseRunsOut` |
| `Session.TypingCompleted` | lib/src/main/java/com/roomroster/typewriter/TypeWriterView.kt:112-126 | uncancelled typing shows `c + t.replace(c, "")` when continuing and `t` otherwise, remembers the typed part, and returns the displayed text |
| `Session.TypingCancelled` | lib/src/main/java/com/roomroster/typewriter/TypeWriterView.kt:120-123 | typing cancelled after k ticks shows the start plus the first k characters of the new `textToType` and returns nothing |
| `Session.TypingAppendsInOrder` | lib/src/main/java/com/roomroster/typewriter/TypeWriterView.kt:120-123 | each tick appends the next character in string order, every intermediate text is a prefix of the final one, the last tick leaves the final text, and each tick waits its own `getDelay` |
| `Session.EraseShrinksToEmpty` | lib/src/main/java/com/roomroster/typewriter/TypeWriterView.kt:105-110 | completed erasing takes one tick per character and leaves ""; cancelled erasing leaves a prefix; every intermediate text is a prefix, one character shorter per tick, and each tick waits its own `getDelay` |
| `Session.ContinueWithJob` | lib/src/main/java/com/roomroster/typewriter/TypeWriterView.kt:72-77 | with a job active, `type` continues only for the empty request, and then keeps the shown text as it is |
| `Session.ContinueFinishesTarget` | lib/src/main/java/com/roomroster/typewriter/TypeWriterView.kt:113-114 | continuing from a shown beginning that does not recur in the rest types exactly the rest and ends on the full target |
| `Session.ContinueCanFallShort` | lib/src/main/java/com/roomroster/typewriter/TypeWriterView.kt:113-114 | continuing "abab" from "ab" types nothing, because every occurrence of "ab" is removed |
| `Session.ContinueFullyShown` | lib/src/main/java/com/roomroster/typewriter/TypeWriterView.kt:113-114 | continuing a target that is fully shown types nothing and keeps it on display |
| `Session.EraseThenTypeShowsTarget` | lib/src/main/java/com/roomroster/typewriter/TypeWriterView.kt:86-89 | an uncancelled erase-then-type completes the erase and then shows, returns and remembers exactly `t` |
| `TypeWriter.TypeWriterView.constructor` | lib/src/main/java/com/roomroster/typewriter/TypeWriterView.kt:28-47 | a new view created without an initial text has the given options, no job, nothing shown and nothing remembered |
| `TypeWriter.TypeWriterView.SetTypingDelay` | lib/src/main/java/com/roomroster/typewriter/TypeWriterView.kt:53-55 | `options` becomes its copy with the new typing delay; nothing else changes |
| `TypeWriter.TypeWriterView.SetErasingDelay` | lib/src/main/java/com/roomroster/typewriter/TypeWriterView.kt:57-59 | `options` becomes its copy with the new erase delay; nothing else changes |
| `TypeWriter.TypeWriterView.Cancel` | lib/src/main/java/com/roomroster/typewriter/TypeWriterView.kt:61-65 | no job afterwards; both texts and the options are untouched |
| `TypeWriter.TypeWriterView.ClearAndCancel` | lib/src/main/java/com/roomroster/typewriter/TypeWriterView.kt:67-70 | no job and `textToType` is ""; the displayed text is untouched |
| `TypeWriter.TypeWriterView.Type` | lib/src/main/java/com/roomroster/typewriter/TypeWriterView.kt:72-77 | a job is set, and the new state and results are the typing outcome with the remembered text emptied when a job existed |
| `TypeWriter.TypeWriterView.Erase` | lib/src/main/java/com/roomroster/typewriter/TypeWriterView.kt:79-84 | a job is set, `textToType` is emptied when a job existed, and the text and results are the erasing outcome |
| `TypeWriter.TypeWriterView.EraseAndType` | lib/src/main/java/com/roomroster/typewriter/TypeWriterView.kt:86-89 | erase then type in one session; a cancelled erase returns nothing and types nothing; uncancelled, it ends showing, returning and remembering `t` |
| `TypeWriter.TypeWriterView.OnSaveInstanceState` | lib/src/main/java/com/roomroster/typewriter/TypeWriterView.kt:91-95 | the saved bundle holds the displayed text and `textToType` |
| `TypeWriter.TypeWriterView.OnRestoreInstanceState` | lib/src/main/java/com/roomroster/typewriter/TypeWriterView.kt:97-103 | a bundle sets both strings, a missing one as ""; any other state changes nothing |
| `TypeWriter.TypeWriterView.EraseText` | lib/src/main/java/com/roomroster/typewriter/TypeWriterView.kt:105-110 | the `while` loop's text, completion, trace and delays are exactly the erasing outcome of the old text |
| `TypeWriter.TypeWriterView.StartTyping` | lib/src/main/java/com/roomroster/typewriter/TypeWriterView.kt:112-126 | the decision and the loop leave exactly the typing outcome of the old texts |
| `TypeWriter.TypeWriterView.TypeEach` | lib/src/main/java/com/roomroster/typewriter/TypeWriterView.kt:120-123 | the `for` loop appends the characters in order and stops at the cancellation point |
| `TypeWriter.ResumeAfterCancel` | lib/src/main/java/com/roomroster/typewriter/TypeWriterView.kt:112-126 | interrupted typing, `cancel`, then the same `type` again ends on the full target and remembers only the suffix |
| `TypeWriter.RetypeWhileJobActive` | lib/src/main/java/com/roomroster/typewriter/TypeWriterView.kt:72-77 | `type(s)` twice on a new view restarts the second time and ends showing `s` |
| `TypeWriter.SaveRestoreRoundTrip` | lib/src/main/java/com/roomroster/typewriter/TypeWriterView.kt:91-103 | restoring a saved state gives back the same displayed text and `textToType` |
| `TypeWriter.CancelTwice` | lib/src/main/java/com/roomroster/typewriter/TypeWriterView.kt:61-65 | `cancel` is idempotent and touches neither text |

## Left out

- Android view machinery is not modelled. This covers the `AppCompatTextView` superclass, attribute parsing (`genOptions`, `TypedArray`), the `Parcelable` super state and rendering. The constructor takes the parsed options as a parameter and stands for a view created without an initial text (`android:text` unset); an initial text set by the superclass is not modelled.
- Lifecycle wiring (`setLifecycleOwner`, `@OnLifecycleEvent`) is not modelled; `Cancel` is a plain method.
- Coroutine machinery (`Job`, `withContext`, `delay`) is replaced by the `stop` input and the recorded delays. No real concurrency is modelled.
- The random helper `randomPlusOrMinusBetween` is not part of this model. Its result, after `.toLong()`, is the input `wobble(i)`, and no range is claimed for it.
- Every tick is treated as a cancellation point, and every `delay` as one that ends. In kotlinx.coroutines, a `delay` of zero or less returns without checking for cancellation, and a `delay(Long.MAX_VALUE)` never returns. Both are reachable: `setTypingDelay(0)`, or wobble on with an offset at or below minus the base delay. So a `stop` of `Some(k)` at such a tick, or a `None` run through a never-ending delay, describes a run the program cannot have. The contracts hold for every `stop`, so they still cover every run it can have.
- `TypeWriterListener.kt` declares callbacks that the view never invokes, so no events are modelled.
- The sample app (`MainActivityFragment.kt`) is caller wiring only.
- Options changed by another coroutine while a session is suspended are not modelled: each loop reads one fixed `options` value.
- `trace` records the text after each tick. It does not record the clearing of the text before a restart.
- A Kotlin `Char` is a UTF-16 code unit, but a Dafny `char` is a Unicode scalar value, which cannot hold half of a surrogate pair. The model therefore describes texts whose characters all lie in the Basic Multilingual Plane. A character outside it is one `char` and one tick in the model, but two code units and two ticks in the source, which can show a lone surrogate after typing or erasing one half.
- TypeWriter.TypeWriterView.Cancel: only clears the job handle. That the running session stops is expressed by the `stop` input of the interrupted call, not by `Cancel` itself.
- Kotlin's `replace` removes every occurrence of the shown text, not only the first one. The model follows the code. `Session.ContinueCanFallShort` shows a target that resumes short of itself.
- `textToType` is not always the full target: after a continue it is only the typed suffix (`TypeWriter.ResumeAfterCancel`). So "the displayed text is a prefix of `textToType`" is not a state invariant of the code, and the model does not claim it.
- With an active job, `type("")` on a non-empty display still takes the continue branch, because `textToType` was just emptied, and it leaves the text as it is (`Session.ContinueWithJob`). The continue branch needs an idle view only for non-empty requests.
