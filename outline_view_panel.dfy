/**
 * The visibility state of the outline view: either no panel is shown, or
 * one panel is, opened at the width the state tracks. The panel itself is
 * an opaque object that is created with a width and can be disposed.
 */
module OutlineViewPanel {

  /** The side panel: what it was opened with and whether it has been torn down. */
  class Panel {
    const initialWidth: int
    var disposed: bool

    /** Opens a panel of the given width. */
    constructor(initialWidth: int)
      ensures this.initialWidth == initialWidth && !disposed
    {
      this.initialWidth := initialWidth;
      disposed := false;
    }

    /** Unmounts the view and destroys the panel. */
    method Dispose()
      modifies this
      ensures disposed
    {
      disposed := true;
    }
  }

  /** `OutlineViewPanelState`: the panel held while the outline view is visible, and the width. */
  class OutlineViewPanelState {
    var outlineViewPanel: Panel?
    var width: int

    /** A panel that is held has not been disposed. */
    predicate Valid()
      reads this, outlineViewPanel
    {
      outlineViewPanel != null ==> !outlineViewPanel.disposed
    }

    /** `isVisible()`: a panel is held. */
    function IsVisible(): bool
      reads this
    {
      outlineViewPanel != null
    }

    /** `getWidth()`. */
    function GetWidth(): int
      reads this
    {
      width
    }

    /** Starts hidden with the given width, then shows the panel when asked to. */
    constructor(width: int, visible: bool)
      ensures Valid() && IsVisible() == visible && GetWidth() == width
      ensures visible ==> fresh(outlineViewPanel) && outlineViewPanel.initialWidth == width
    {
      outlineViewPanel := null;
      this.width := width;
      new;
      if visible {
        ShowPanel();
      }
    }

    /** `dispose()`: destroys the panel if one is shown. */
    method Dispose()
      requires Valid()
      modifies this, outlineViewPanel
      ensures Valid() && !IsVisible() && width == old(width)
      ensures old(outlineViewPanel) != null ==> old(outlineViewPanel).disposed
    {
      if IsVisible() {
        DestroyPanel();
      }
    }

    /** `toggle()`: hides a shown panel, or shows a new one. */
    method Toggle()
      requires Valid()
      modifies this, outlineViewPanel
      ensures Valid() && IsVisible() == !old(IsVisible()) && width == old(width)
      ensures old(IsVisible()) ==> old(outlineViewPanel).disposed
      ensures !old(IsVisible()) ==> fresh(outlineViewPanel) && outlineViewPanel.initialWidth == width
    {
      if IsVisible() {
        HidePanel();
      } else {
        ShowPanel();
      }
    }

    /** `show()`: shows a new panel unless one is shown already. */
    method Show()
      requires Valid()
      modifies this
      ensures Valid() && IsVisible() && width == old(width)
      ensures old(IsVisible()) ==> outlineViewPanel == old(outlineViewPanel)
      ensures !old(IsVisible()) ==> fresh(outlineViewPanel) && outlineViewPanel.initialWidth == width
    {
      if !IsVisible() {
        ShowPanel();
      }
    }

    /** `hide()`: destroys the panel if one is shown. */
    method Hide()
      requires Valid()
      modifies this, outlineViewPanel
      ensures Valid() && !IsVisible() && width == old(width)
      ensures old(IsVisible()) ==> old(outlineViewPanel).disposed
    {
      if IsVisible() {
        HidePanel();
      }
    }

    /** `_show()`: only while hidden; opens a panel at the current width. */
    method ShowPanel()
      requires outlineViewPanel == null
      modifies this
      ensures fresh(outlineViewPanel) && outlineViewPanel.initialWidth == width && !outlineViewPanel.disposed
      ensures width == old(width)
    {
      outlineViewPanel := new Panel(width);
    }

    /** `_hide()`. */
    method HidePanel()
      requires outlineViewPanel != null
      modifies this, outlineViewPanel
      ensures outlineViewPanel == null && old(outlineViewPanel).disposed && width == old(width)
    {
      DestroyPanel();
    }

    /** `_destroyPanel()`: only while shown; disposes the panel and lets go of it. */
    method DestroyPanel()
      requires outlineViewPanel != null
      modifies this, outlineViewPanel
      ensures outlineViewPanel == null && old(outlineViewPanel).disposed && width == old(width)
    {
      var panel := outlineViewPanel;
      panel.Dispose();
      outlineViewPanel := null;
    }

    /** `_onResize(newWidth)`: the panel reports a new width. */
    method OnResize(newWidth: int)
      requires Valid()
      modifies this
      ensures Valid() && GetWidth() == newWidth && outlineViewPanel == old(outlineViewPanel)
    {
      width := newWidth;
    }
  }

  /**
   * A session with the outline view: opened hidden at width 300, shown twice,
   * resized by the user to 250, then toggled off and on again. Reports what
   * the state says after each of the last three steps.
   */
  method ShowResizeToggle() returns (shownAfterHide: bool, widthAfterHide: int, reopenedWidth: int)
    ensures !shownAfterHide && widthAfterHide == 250 && reopenedWidth == 250
  {
    var state := new OutlineViewPanelState(300, false);
    state.Show();
    state.Show();
    state.OnResize(250);
    state.Toggle();
    shownAfterHide, widthAfterHide := state.IsVisible(), state.GetWidth();
    state.Toggle();
    reopenedWidth := state.outlineViewPanel.initialWidth;
  }
}
