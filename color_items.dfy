/**
  One entry of the colour board (`ColorItem`): its three pieces of React state,
  the blur timers it has scheduled, and the handlers that change them. Each
  handler is a step of a small state machine; it either reports a colour to the
  owner (the `onColorChange` callback, modelled as the `commit` result) or not.

  The pure functions `OnInputChange`, `OnInputBlur`, ... specify the handlers;
  the class `ColorItem` carries the state as fields and implements them the way
  the component does, step by step.
 */
module ColorItems {

  import opened Options
  import opened HexCodes

  /**
    The state of one entry. `pendingInvalidClears` counts the 300 ms timers
    that a failed blur has scheduled to clear `isInvalid` and that have not
    fired yet; the source never cancels them. The timer that clears
    `shouldShake` exists exactly while `shouldShake` is set, so it needs no
    field of its own.
   */
  datatype ItemState = ItemState(
    inputValue: string,
    isInvalid: bool,
    shouldShake: bool,
    pendingInvalidClears: nat)

  /** The state after a handler, and the colour it reported upstream, if any. */
  datatype Step = Step(state: ItemState, commit: Option<string>)

  /** A freshly mounted entry shows its colour and raises no flag. */
  function Mounted(color: string): ItemState {
    ItemState(color, false, false, 0)
  }

  /**
    Text change. The field always shows what was typed; a colour is reported
    exactly when the normalised text is valid hex, and then it is the
    canonical expansion and the invalid flag drops. Otherwise the flag is
    raised once four characters have been typed and is left alone before
    that: normalising always supplies a `#`, so the three-character threshold
    of the source is never the one in force.
   */
  function OnInputChange(st: ItemState, value: string): (r: Step)
    ensures r.state.inputValue == value
    ensures r.commit.Some? <==> IsValidHex(NormalizeHex(value))
    ensures r.commit.Some? ==> r.commit.value == ExpandShortHex(NormalizeHex(value))
    ensures r.commit.Some? ==> IsLongHex(r.commit.value) && !r.state.isInvalid
    ensures r.commit.None? && |value| >= 4 ==> r.state.isInvalid
    ensures r.commit.None? && |value| < 4 ==> r.state.isInvalid == st.isInvalid
    ensures r.state.shouldShake == st.shouldShake
    ensures r.state.pendingInvalidClears == st.pendingInvalidClears
  {
    match CommitValue(value)
    case Some(c) => Step(st.(inputValue := value, isInvalid := false), Some(c))
    case None => Step(st.(inputValue := value, isInvalid := st.isInvalid || |value| >= 4), None)
  }

  /**
    Blur. Valid normalised text is replaced by its canonical expansion, which
    is reported, and the invalid flag drops. Otherwise nothing is reported,
    the field falls back to the owner's colour, a timer to clear the invalid
    flag is scheduled, and shake and invalid flag are raised only if the field
    was not empty: an empty field reverts silently.
   */
  function OnInputBlur(st: ItemState, color: string): (r: Step)
    ensures r.commit.Some? <==> IsValidHex(NormalizeHex(st.inputValue))
    ensures r.commit.Some? ==>
      && r.commit.value == ExpandShortHex(NormalizeHex(st.inputValue))
      && IsLongHex(r.commit.value)
      && r.state == st.(inputValue := r.commit.value, isInvalid := false)
    ensures r.commit.None? ==>
      && r.state.inputValue == color
      && r.state.pendingInvalidClears == st.pendingInvalidClears + 1
      && (st.inputValue != [] ==> r.state.isInvalid && r.state.shouldShake)
      && (st.inputValue == [] ==> r.state.isInvalid == st.isInvalid && r.state.shouldShake == st.shouldShake)
  {
    match CommitValue(st.inputValue)
    case Some(c) => Step(st.(inputValue := c, isInvalid := false), Some(c))
    case None =>
      var rejected := st.inputValue != [];
      Step(ItemState(color, st.isInvalid || rejected, st.shouldShake || rejected,
                     st.pendingInvalidClears + 1),
           None)
  }

  /**
    Picker change. The native picker always yields a `#rrggbb` string. The
    field shows it upper-cased, the invalid flag drops, and the picker's own
    string is reported, case unchanged: display and report may differ in case
    but denote the same colour.
   */
  function OnPickerChange(st: ItemState, newColor: string): (r: Step)
    requires IsLongHex(newColor)
    ensures r.commit == Some(newColor)
    ensures r.state.inputValue == ToUpper(newColor)
    ensures IsLongHex(r.state.inputValue) && Channels(r.state.inputValue) == Channels(newColor)
    ensures !r.state.isInvalid
    ensures r.state.shouldShake == st.shouldShake
    ensures r.state.pendingInvalidClears == st.pendingInvalidClears
  {
    UpperPreservesColour(newColor);
    Step(st.(inputValue := ToUpper(newColor), isInvalid := false), Some(newColor))
  }

  /** The effect on the `color` prop: a new colour from the owner replaces the text, whatever it was. */
  function OnColorProp(st: ItemState, color: string): ItemState {
    st.(inputValue := color)
  }

  /** The shake timer fires (it is pending exactly while `shouldShake` is set). */
  function OnShakeTimer(st: ItemState): ItemState
    requires st.shouldShake
  {
    st.(shouldShake := false)
  }

  /** One of the timers scheduled by a failed blur fires and clears the invalid flag. */
  function OnInvalidTimer(st: ItemState): ItemState
    requires st.pendingInvalidClears > 0
  {
    st.(isInvalid := false, pendingInvalidClears := st.pendingInvalidClears - 1)
  }

  /**
    A failed blur on a non-empty field, followed by both of its timers, leaves
    the entry showing the owner's colour with no flag up: the shake has come
    and gone.
   */
  lemma RejectedBlurSettles(st: ItemState, color: string)
    requires st.inputValue != [] && !IsValidHex(NormalizeHex(st.inputValue))
    ensures var blurred := OnInputBlur(st, color).state;
      && blurred.shouldShake && blurred.isInvalid && blurred.pendingInvalidClears > 0
      && var settled := OnInvalidTimer(OnShakeTimer(blurred));
      && settled == ItemState(color, false, false, st.pendingInvalidClears)
  {
  }

  /** Typing `zzz` is rejected but, being shorter than four characters, raises no flag. */
  lemma ShortJunkRaisesNoFlag(st: ItemState)
    requires !st.isInvalid
    ensures OnInputChange(st, "zzz").commit == None
    ensures !OnInputChange(st, "zzz").state.isInvalid
  {
    CommitOfNonHexExample();
  }

  /** The entry component: React state as fields, handlers as methods. */
  class ColorItem {
    var inputValue: string
    var isInvalid: bool
    var shouldShake: bool
    var pendingInvalidClears: nat

    function State(): ItemState
      reads this
    {
      ItemState(inputValue, isInvalid, shouldShake, pendingInvalidClears)
    }

    constructor (color: string)
      ensures State() == Mounted(color)
    {
      inputValue := color;
      isInvalid := false;
      shouldShake := false;
      pendingInvalidClears := 0;
    }

    /** `handleInputChange`. */
    method InputChange(value: string) returns (commit: Option<string>)
      modifies this
      ensures State() == OnInputChange(old(State()), value).state
      ensures commit == OnInputChange(old(State()), value).commit
    {
      inputValue := value;
      var normalized := NormalizeHex(value);
      if IsValidHex(normalized) {
        isInvalid := false;
        var expanded := ExpandShortHex(normalized);
        commit := Some(expanded);
      } else {
        var minLength := if StartsWithHash(normalized) then 4 else 3;
        if |value| >= minLength && !IsValidHex(normalized) {
          isInvalid := true;
        }
        commit := None;
      }
    }

    /** `handleInputBlur`, given the owner's current colour. */
    method InputBlur(color: string) returns (commit: Option<string>)
      modifies this
      ensures State() == OnInputBlur(old(State()), color).state
      ensures commit == OnInputBlur(old(State()), color).commit
    {
      ghost var before := State();
      var normalized := NormalizeHex(inputValue);
      if IsValidHex(normalized) {
        var expanded := ExpandShortHex(normalized);
        assert CommitValue(before.inputValue) == Some(expanded);
        inputValue := expanded;
        isInvalid := false;
        commit := Some(expanded);
        assert State() == OnInputBlur(before, color).state;
      } else {
        assert CommitValue(before.inputValue) == None;
        if |inputValue| > 0 && !IsValidHex(normalized) {
          shouldShake := true;
          isInvalid := true;
        }
        inputValue := color;
        pendingInvalidClears := pendingInvalidClears + 1;
        commit := None;
        assert State() == OnInputBlur(before, color).state;
      }
    }

    /** `handlePickerChange`; the picker only ever yields `#rrggbb`. */
    method PickerChange(newColor: string) returns (commit: Option<string>)
      requires IsLongHex(newColor)
      modifies this
      ensures State() == OnPickerChange(old(State()), newColor).state
      ensures commit == OnPickerChange(old(State()), newColor).commit
    {
      inputValue := ToUpper(newColor);
      isInvalid := false;
      commit := Some(newColor);
    }

    /** The effect that follows a change of the `color` prop. */
    method ColorChanged(color: string)
      modifies this
      ensures State() == OnColorProp(old(State()), color)
    {
      inputValue := color;
    }

    /** The shake timer fires. */
    method ShakeTimerFires()
      requires shouldShake
      modifies this
      ensures State() == OnShakeTimer(old(State()))
    {
      shouldShake := false;
    }

    /** A timer scheduled by a failed blur fires. */
    method InvalidTimerFires()
      requires pendingInvalidClears > 0
      modifies this
      ensures State() == OnInvalidTimer(old(State()))
    {
      isInvalid := false;
      pendingInvalidClears := pendingInvalidClears - 1;
    }
  }
}
