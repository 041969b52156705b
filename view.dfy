/**
 * The typing engine of `TypeWriterView`: the displayed text, the remembered `textToType`, the
 * handle of the active job (`job != null` is `hasJob`) and the options record, updated in place
 * by the view's operations. Suspension in `delay` is recorded as the delay value it would wait;
 * the text after every tick is recorded as the trace the view shows.
 */
module TypeWriter {
  import opened Wrappers
  import opened Timing
  import opened StringReplace
  import opened Session

  /** The saved instance state: a `Bundle` with the two strings (either may be missing), or some other `Parcelable`. */
  datatype Parcel = Bundle(currentText: Option<string>, totalText: Option<string>) | OtherParcelable

  class TypeWriterView {
    var options: Attrs
    var hasJob: bool
    var textToType: string
    var text: string

    /**
     * A new view created without an initial text: `options` stands for what attribute parsing
     * produced; nothing shown, nothing remembered, no job.
     */
    constructor (options: Attrs)
      ensures this.options == options && !hasJob && textToType == [] && text == []
    {
      this.options := options;
      hasJob := false;
      textToType := [];
      text := [];
    }

    method SetTypingDelay(delay: Long)
      modifies this`options
      ensures options == WithTypingDelay(old(options), delay)
    {
      options := WithTypingDelay(options, delay);
    }

    method SetErasingDelay(delay: Long)
      modifies this`options
      ensures options == WithEraseDelay(old(options), delay)
    {
      options := WithEraseDelay(options, delay);
    }

    /** Cancels the active job, if any, and forgets it; the texts stay as they are. */
    method Cancel()
      modifies this`hasJob
      ensures !hasJob
    {
      hasJob := false;
    }

    method ClearAndCancel()
      modifies this`hasJob, this`textToType
      ensures !hasJob && textToType == []
    {
      textToType := [];
      Cancel();
    }

    /** `type(t)`: end any active session, open a new one and type `t` in it. */
    method Type(t: string, wobble: nat -> Long, stop: Option<nat>)
      returns (r: Option<string>, trace: seq<string>, delays: seq<Long>)
      modifies this`hasJob, this`textToType, this`text
      ensures hasJob
      ensures Typed(text, textToType, r, trace, delays)
           == TypingOutcome(t, if old(hasJob) then [] else old(textToType), old(text), options, wobble, stop)
    {
      if hasJob {
        ClearAndCancel();
      }
      hasJob := true;
      r, trace, delays := StartTyping(t, wobble, stop);
    }

    /** `erase()`: end any active session, open a new one and erase the text in it. */
    method Erase(wobble: nat -> Long, stop: Option<nat>)
      returns (completed: bool, trace: seq<string>, delays: seq<Long>)
      modifies this`hasJob, this`textToType, this`text
      ensures hasJob
      ensures textToType == if old(hasJob) then [] else old(textToType)
      ensures Erased(text, completed, trace, delays) == EraseOutcome(old(text), options, wobble, stop)
    {
      if hasJob {
        ClearAndCancel();
      }
      hasJob := true;
      completed, trace, delays := EraseText(wobble, stop);
    }

    /**
     * `eraseAndType(t)`: erase, then type `t` in the same session. A cancellation during the
     * erasing propagates, and nothing is typed.
     */
    method EraseAndType(t: string, wobble: nat -> Long, stop: Option<nat>)
      returns (r: Option<string>, trace: seq<string>, delays: seq<Long>)
      modifies this`hasJob, this`textToType, this`text
      ensures hasJob
      ensures var prior := if old(hasJob) then [] else old(textToType);
              var n := |old(text)|;
              var e := EraseOutcome(old(text), options, wobble, stop);
              var o := TypingOutcome(t, prior, [], options, ShiftWobble(wobble, n), ShiftStop(stop, n));
              if e.completed then
                Typed(text, textToType, r, trace, delays)
                == Typed(o.text, o.textToType, o.result, e.trace + o.trace, e.delays + o.delays)
              else
                r == None && text == e.text && textToType == prior && trace == e.trace && delays == e.delays
      ensures stop.None? || stop.value > |old(text)| + |t| ==> r == Some(t) && text == t && textToType == t
    {
      ghost var n := |text|;
      ghost var shown := text;
      ghost var prior := if hasJob then [] else textToType;
      var completed, eraseTrace, eraseDelays := Erase(wobble, stop);
      if !completed {
        return None, eraseTrace, eraseDelays;
      }
      var typeTrace, typeDelays;
      r, typeTrace, typeDelays := StartTyping(t, ShiftWobble(wobble, |eraseTrace|), ShiftStop(stop, |eraseTrace|));
      trace, delays := eraseTrace + typeTrace, eraseDelays + typeDelays;
      if stop.None? || stop.value > n + |t| {
        EraseThenTypeShowsTarget(shown, t, prior, options, wobble, stop);
      }
    }

    method OnSaveInstanceState() returns (p: Parcel)
      ensures p == Bundle(Some(text), Some(textToType))
    {
      p := Bundle(Some(text), Some(textToType));
    }

    /** A `Bundle` sets both strings, a missing one as ""; any other `Parcelable` changes nothing. */
    method OnRestoreInstanceState(p: Parcel)
      modifies this`text, this`textToType
      ensures p.Bundle? ==> text == p.currentText.GetOr([]) && textToType == p.totalText.GetOr([])
      ensures p.OtherParcelable? ==> text == old(text) && textToType == old(textToType)
    {
      if p.Bundle? {
        text := p.currentText.GetOr([]);
        textToType := p.totalText.GetOr([]);
      }
    }

    /** Removes the last character until nothing is shown. */
    method EraseText(wobble: nat -> Long, stop: Option<nat>)
      returns (completed: bool, trace: seq<string>, delays: seq<Long>)
      modifies this`text
      ensures Erased(text, completed, trace, delays) == EraseOutcome(old(text), options, wobble, stop)
    {
      ghost var s := text;
      var a := options;
      if stop == Some(0) {
        EraseStopsAt(s, a, wobble, 0);
        return false, [], [];
      }
      trace, delays := [], [];
      var i := 0;
      while text != []
        invariant 0 <= i <= |s| && text == s[..|s| - i]
        invariant trace == EraseTrace(s, i)
        invariant delays == TickDelays(a, Action.Erase, wobble, i)
        invariant stop.Some? ==> stop.value > i
        decreases |text|
      {
        ErasingTick(s, i);
        text := text[..|text| - 1];
        trace := trace + [text];
        delays := delays + [GetDelay(a, Action.Erase, wobble(i))];
        i := i + 1;
        if stop == Some(i) {
          EraseStopsAt(s, a, wobble, i);
          return false, trace, delays;
        }
      }
      EraseRunsOut(s, a, wobble, stop);
      completed := true;
    }

    /** Decides between continuing and retyping, then appends one character per tick. */
    method StartTyping(t: string, wobble: nat -> Long, stop: Option<nat>)
      returns (r: Option<string>, trace: seq<string>, delays: seq<Long>)
      modifies this`text, this`textToType
      ensures Typed(text, textToType, r, trace, delays)
           == TypingOutcome(t, old(textToType), old(text), options, wobble, stop)
    {
      if stop == Some(0) {
        return None, [], [];
      }
      ghost var plan := Resolve(t, textToType, text);
      if t == textToType && text != [] {
        textToType := RemoveAll(t, text);
      } else {
        text := [];
        textToType := t;
      }
      assert plan == Plan(text, textToType);
      r, trace, delays := TypeEach(textToType, wobble, stop);
    }

    /** The `for` loop of `startTyping`: appends the characters of `toType` in order, one per tick. */
    method TypeEach(toType: string, wobble: nat -> Long, stop: Option<nat>)
      returns (r: Option<string>, trace: seq<string>, delays: seq<Long>)
      requires stop != Some(0)
      modifies this`text
      ensures Typed(text, toType, r, trace, delays) == TypeLoop(old(text), toType, options, wobble, stop)
    {
      ghost var kept := text;
      var a := options;
      trace, delays := [], [];
      var i := 0;
      while i < |toType|
        invariant i <= |toType|
        invariant text == kept + toType[..i]
        invariant trace == TypingTrace(kept, toType, i)
        invariant delays == TickDelays(a, Action.Type, wobble, i)
        invariant stop.Some? ==> stop.value > i
      {
        TypingTick(kept, toType, i);
        text := text + [toType[i]];
        trace := trace + [text];
        delays := delays + [GetDelay(a, Action.Type, wobble(i))];
        i := i + 1;
        if stop == Some(i) {
          TypeLoopStopsAt(kept, toType, a, wobble, i);
          return None, trace, delays;
        }
      }
      TypeLoopRunsOut(kept, toType, a, wobble, stop);
      assert toType[..i] == toType;
      r := Some(text);
    }
  }

  /**
   * On a new view, typing `shown + rest` is interrupted once `shown` is on display and the job is
   * cancelled; typing the same text again continues from `shown`, finishes the whole text and
   * remembers only the typed suffix `rest` (when `shown` does not occur again in `rest`).
   */
  method ResumeAfterCancel(shown: string, rest: string, wobble: nat -> Long)
    returns (v: TypeWriterView, r: Option<string>)
    requires shown != []
    requires forall j :: !OccursAt(rest, shown, j)
    ensures r == Some(shown + rest) && v.text == shown + rest && v.textToType == rest && v.hasJob
  {
    v := new TypeWriterView(DefaultAttrs());
    var trace, delays;
    r, trace, delays := v.Type(shown + rest, wobble, Some(|shown|));
    assert (shown + rest)[..|shown|] == shown;
    assert r == None && v.text == shown && v.textToType == shown + rest;
    v.Cancel();
    ContinueFinishesTarget(shown, rest);
    r, trace, delays := v.Type(shown + rest, wobble, None);
    assert rest[..|rest|] == rest;
  }

  /**
   * On a new view, `type(s)` runs to completion and leaves its job set; `type(s)` again clears
   * the remembered text, so it restarts rather than continues, and ends showing `s` again.
   */
  method RetypeWhileJobActive(s: string, wobble: nat -> Long)
    returns (v: TypeWriterView, r: Option<string>)
    ensures r == Some(s) && v.text == s && v.textToType == s && v.hasJob
  {
    v := new TypeWriterView(DefaultAttrs());
    var trace, delays;
    r, trace, delays := v.Type(s, wobble, None);
    TypingCompleted(s, [], [], v.options, wobble, None);
    ghost var shown := v.text;
    r, trace, delays := v.Type(s, wobble, None);
    TypingCompleted(s, [], shown, v.options, wobble, None);
  }

  /** Restoring what one view saved gives another view the same two strings. */
  method SaveRestoreRoundTrip(from: TypeWriterView, to: TypeWriterView)
    modifies to
    ensures to.text == old(from.text) && to.textToType == old(from.textToType)
  {
    var p := from.OnSaveInstanceState();
    to.OnRestoreInstanceState(p);
  }

  /** A second `cancel` changes nothing. */
  method CancelTwice(v: TypeWriterView)
    modifies v
    ensures !v.hasJob && v.text == old(v.text) && v.textToType == old(v.textToType)
    ensures v.options == old(v.options)
  {
    v.Cancel();
    v.Cancel();
  }
}
