/** The reveal gate of a slide element. The host presentation counts the
    clicks made on the current slide; an element with a click threshold is
    shown once the count reaches it, an element without one always. The
    JavaScript `useClickVisibility` reads the host's counter reactively;
    here it is the explicit parameter `current`. */
module ClickVisibility {
  import opened Wrappers

  /** `click ?? fallbackClick`: the element's own threshold wins. */
  function EffectiveClick(click: Option<int>, fallbackClick: Option<int>): (t: Option<int>)
    ensures click.Some? ==> t == click
    ensures click.None? ==> t == fallbackClick
    ensures t.None? <==> click.None? && fallbackClick.None?
  {
    click.OrElse(fallbackClick)
  }

  /** `isVisible(click?, fallbackClick?)` at click step `current`. */
  function IsVisible(current: int, click: Option<int>, fallbackClick: Option<int>): (r: bool)
    ensures click.None? && fallbackClick.None? ==> r
    ensures click.Some? ==> (r <==> current >= click.value)
    ensures click.None? && fallbackClick.Some? ==> (r <==> current >= fallbackClick.value)
  {
    match EffectiveClick(click, fallbackClick)
    case None => true
    case Some(threshold) => current >= threshold
  }

  /** Advancing the click counter never hides a shown element. */
  lemma VisibleMonotoneInStep(n: int, m: int, click: Option<int>, fallbackClick: Option<int>)
    requires IsVisible(n, click, fallbackClick)
    requires n <= m
    ensures IsVisible(m, click, fallbackClick)
  {
  }

  /** With threshold `t` the element appears exactly at step `t`: shown
      there, hidden one step before. */
  lemma VisibleBoundary(t: int, fallbackClick: Option<int>)
    ensures IsVisible(t, Some(t), fallbackClick)
    ensures !IsVisible(t - 1, Some(t), fallbackClick)
    ensures IsVisible(t, None, Some(t))
    ensures !IsVisible(t - 1, None, Some(t))
  {
  }

  /** Lowering the effective threshold never hides a shown element. */
  lemma VisibleAntitoneInThreshold(current: int, click: Option<int>, fallbackClick: Option<int>, t: int, t': int)
    requires EffectiveClick(click, fallbackClick) == Some(t)
    requires IsVisible(current, click, fallbackClick)
    requires t' <= t
    ensures forall f :: IsVisible(current, Some(t'), f)
    ensures IsVisible(current, None, Some(t'))
  {
  }
}
