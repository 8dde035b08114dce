/**
  The page that owns the colour list (`Home`): the authoritative colours, one
  entry per colour, and the way an entry's report reaches the list
  (`handleColorChange`) and flows back into the entry through its `color` prop.
 */
module HomePage {

  import opened Options
  import opened HexCodes
  import opened ColorItems

  /** `DEFAULT_COLORS`, the palette the list starts from. */
  const DefaultColors: seq<string> := [
    "#FF5733", "#33FF57", "#3357FF", "#FF33F5", "#F5FF33",
    "#33FFF5", "#FF8C33", "#8C33FF", "#33FF8C", "#FF3333"
  ]

  predicate AllCanonical(colors: seq<string>) {
    forall i :: 0 <= i < |colors| ==> IsLongHex(colors[i])
  }

  lemma DefaultColorsCanonical()
    ensures |DefaultColors| == 10
    ensures AllCanonical(DefaultColors)
  {
    forall i | 0 <= i < |DefaultColors| ensures IsLongHex(DefaultColors[i]) {
      var c := DefaultColors[i];
      assert |c| == 7 && c[0] == '#';
      assert forall k :: 1 <= k < 7 ==> IsHexDigit(c[k]);
      assert forall k :: 0 <= k < 6 ==> c[1..][k] == c[k + 1];
    }
  }

  /** `handleColorChange` applied to a report, if there is one. */
  function Delivered(colors: seq<string>, index: nat, commit: Option<string>): (r: seq<string>)
    requires index < |colors|
    ensures |r| == |colors|
    ensures forall j :: 0 <= j < |colors| && j != index ==> r[j] == colors[j]
    ensures r[index] == if commit.Some? then commit.value else colors[index]
  {
    match commit
    case Some(c) => colors[index := c]
    case None => colors
  }

  /**
    The entry after React has rendered it with the colour the owner now holds:
    the reset effect runs only when that colour differs from the one before.
   */
  function Rendered(st: ItemState, commit: Option<string>, previous: string): ItemState {
    match commit
    case Some(c) => if c != previous then OnColorProp(st, c) else st
    case None => st
  }

  /** Reports that are canonical keep a canonical list canonical, and never change its length. */
  lemma DeliveredKeepsCanonical(colors: seq<string>, index: nat, commit: Option<string>)
    requires index < |colors| && AllCanonical(colors)
    requires commit.Some? ==> IsLongHex(commit.value)
    ensures |Delivered(colors, index, commit)| == |colors|
    ensures AllCanonical(Delivered(colors, index, commit))
  {
  }

  /**
    After a text change has been rendered, the field shows the committed
    colour when the colour changed (typing `#f00` over `#FF5733` shows
    `#ff0000`), and the typed text otherwise.
   */
  lemma TypedTextAfterRender(st: ItemState, previous: string, value: string)
    ensures var step := OnInputChange(st, value);
      Rendered(step.state, step.commit, previous).inputValue ==
        if CommitValue(value).Some? && CommitValue(value).value != previous
        then CommitValue(value).value else value
  {
  }

  /**
    After a picker change has been rendered, the field shows the picker's own
    string whenever that string differs from the colour before, and its
    upper-cased form only when it does not; either way it denotes the colour
    that was reported.
   */
  lemma PickedTextAfterRender(st: ItemState, previous: string, newColor: string)
    requires IsLongHex(newColor)
    ensures var step := OnPickerChange(st, newColor);
      var shown := Rendered(step.state, step.commit, previous).inputValue;
      && shown == (if newColor != previous then newColor else ToUpper(newColor))
      && IsLongHex(shown) && Channels(shown) == Channels(newColor)
  {
    UpperPreservesColour(newColor);
  }

  /** The page component: the colour list and the entries rendered from it. */
  class Home {
    var colors: seq<string>
    var items: seq<ColorItem>

    /** One entry per colour, distinct entries, a fixed length and only canonical colours. */
    ghost predicate Valid()
      reads this
    {
      && |colors| == |DefaultColors|
      && |items| == |colors|
      && (forall i, j :: 0 <= i < j < |items| ==> items[i] != items[j])
      && AllCanonical(colors)
    }

    constructor ()
      ensures Valid()
      ensures colors == DefaultColors
      ensures forall i :: 0 <= i < |items| ==> fresh(items[i]) && items[i].State() == Mounted(colors[i])
    {
      var made: seq<ColorItem> := [];
      while |made| < |DefaultColors|
        invariant |made| <= |DefaultColors|
        invariant forall j :: 0 <= j < |made| ==> fresh(made[j]) && made[j].State() == Mounted(DefaultColors[j])
        invariant forall i, j :: 0 <= i < j < |made| ==> made[i] != made[j]
      {
        var item := new ColorItem(DefaultColors[|made|]);
        made := made + [item];
      }
      colors := DefaultColors;
      items := made;
      DefaultColorsCanonical();
    }

    /** `handleColorChange`: a copy of the list with one index overwritten; it trusts its caller. */
    method HandleColorChange(index: nat, newColor: string)
      requires index < |colors|
      modifies this`colors
      ensures |colors| == |old(colors)| && colors[index] == newColor
      ensures forall j :: 0 <= j < |colors| && j != index ==> colors[j] == old(colors[j])
      ensures old(Valid()) && IsLongHex(newColor) ==> Valid()
    {
      var updated := colors;
      updated := updated[index := newColor];
      colors := updated;
    }

    /** Hands an entry's report to the list and lets the entry be rendered with the result. */
    method Deliver(index: nat, commit: Option<string>)
      requires Valid() && index < |items|
      requires commit.Some? ==> IsLongHex(commit.value)
      modifies this`colors, items[index]
      ensures Valid()
      ensures colors == Delivered(old(colors), index, commit)
      ensures items[index].State() == Rendered(old(items[index].State()), commit, old(colors[index]))
    {
      if commit.Some? {
        var previous := colors[index];
        HandleColorChange(index, commit.value);
        if commit.value != previous {
          items[index].ColorChanged(commit.value);
        }
      }
      assert colors == Delivered(old(colors), index, commit);
    }

    /** The user types into entry `index`. */
    method TextChange(index: nat, value: string)
      requires Valid() && index < |items|
      modifies this`colors, items[index]
      ensures Valid()
      ensures var step := OnInputChange(old(items[index].State()), value);
        && colors == Delivered(old(colors), index, step.commit)
        && items[index].State() == Rendered(step.state, step.commit, old(colors[index]))
    {
      var commit := items[index].InputChange(value);
      Deliver(index, commit);
    }

    /** Entry `index` loses focus. */
    method Blur(index: nat)
      requires Valid() && index < |items|
      modifies this`colors, items[index]
      ensures Valid()
      ensures var step := OnInputBlur(old(items[index].State()), old(colors[index]));
        && colors == Delivered(old(colors), index, step.commit)
        && items[index].State() == Rendered(step.state, step.commit, old(colors[index]))
    {
      var commit := items[index].InputBlur(colors[index]);
      Deliver(index, commit);
    }

    /** The picker of entry `index` yields `newColor`. */
    method PickerChange(index: nat, newColor: string)
      requires Valid() && index < |items|
      requires IsLongHex(newColor)
      modifies this`colors, items[index]
      ensures Valid()
      ensures var step := OnPickerChange(old(items[index].State()), newColor);
        && colors == Delivered(old(colors), index, step.commit)
        && items[index].State() == Rendered(step.state, step.commit, old(colors[index]))
    {
      var commit := items[index].PickerChange(newColor);
      Deliver(index, commit);
    }

    /** The shake timer of entry `index` fires. */
    method ShakeTimerFires(index: nat)
      requires Valid() && index < |items|
      requires items[index].shouldShake
      modifies items[index]
      ensures Valid() && colors == old(colors)
      ensures items[index].State() == OnShakeTimer(old(items[index].State()))
    {
      items[index].ShakeTimerFires();
    }

    /** A timer scheduled by a failed blur of entry `index` fires. */
    method InvalidTimerFires(index: nat)
      requires Valid() && index < |items|
      requires items[index].pendingInvalidClears > 0
      modifies items[index]
      ensures Valid() && colors == old(colors)
      ensures items[index].State() == OnInvalidTimer(old(items[index].State()))
    {
      items[index].InvalidTimerFires();
    }
  }
}
