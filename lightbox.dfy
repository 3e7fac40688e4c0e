/**
 * components/Lightbox.tsx: the full-screen viewer's zoom and loading state,
 * its keyboard dispatch and its buttons. The callbacks it is given (onClose,
 * onNavigate) are returned as commands for the caller to run.
 */
module Lightbox {

  datatype Direction = Prev | Next

  /** The callback a handler invokes, if any. */
  datatype Command = NoCommand | Close | Navigate(dir: Direction)

  /** The viewer's two state flags. */
  datatype ViewState = ViewState(isZoomed: bool, imageLoaded: bool)

  /** Both flags start false. */
  const Initial: ViewState := ViewState(false, false)

  /**
   * The callback handleKeyDown invokes for a key: Escape closes; the arrows
   * navigate, each only when there is a photo on that side; nothing else
   * invokes anything.
   */
  function KeyCommand(key: string, hasPrev: bool, hasNext: bool): (cmd: Command)
    ensures cmd == Close <==> key == "Escape"
    ensures cmd == Navigate(Prev) <==> key == "ArrowLeft" && hasPrev
    ensures cmd == Navigate(Next) <==> key == "ArrowRight" && hasNext
    ensures cmd == NoCommand <==>
      key !in {"Escape", "ArrowLeft", "ArrowRight"} || (key == "ArrowLeft" && !hasPrev) ||
      (key == "ArrowRight" && !hasNext)
  {
    if key == "Escape" then Close
    else if key == "ArrowLeft" then (if hasPrev then Navigate(Prev) else NoCommand)
    else if key == "ArrowRight" then (if hasNext then Navigate(Next) else NoCommand)
    else NoCommand
  }

  /** The flags after a key: space flips the zoom, nothing else changes them. */
  function AfterKey(s: ViewState, key: string): (t: ViewState)
    ensures t.imageLoaded == s.imageLoaded
    ensures t.isZoomed != s.isZoomed <==> key == " "
  {
    if key == " " then s.(isZoomed := !s.isZoomed) else s
  }

  /** Pressing space twice restores the zoom. */
  lemma SpaceTwiceRestores(s: ViewState)
    ensures AfterKey(AfterKey(s, " "), " ") == s
  {
  }

  /**
   * Navigating by keyboard leaves both flags as they were, so from a zoomed or
   * loaded state it ends somewhere other than the button for the same step.
   */
  lemma KeyNavigationKeepsState(s: ViewState, key: string, hasPrev: bool, hasNext: bool)
    requires KeyCommand(key, hasPrev, hasNext).Navigate?
    ensures AfterKey(s, key) == s
    ensures s.isZoomed || s.imageLoaded ==> AfterKey(s, key) != AfterNavigateButton(s)
  {
  }

  /** The flags after a prev or next button: both reset. */
  function AfterNavigateButton(s: ViewState): (t: ViewState)
    ensures !t.isZoomed && !t.imageLoaded
  {
    ViewState(false, false)
  }

  /** The flags after the zoom button or a click on the image: the zoom flipped. */
  function AfterToggle(s: ViewState): (t: ViewState)
    ensures t.isZoomed == !s.isZoomed && t.imageLoaded == s.imageLoaded
  {
    s.(isZoomed := !s.isZoomed)
  }

  /** A mounted viewer with its state. */
  class Viewer {
    var isZoomed: bool
    var imageLoaded: bool

    function State(): ViewState
      reads this
    {
      ViewState(isZoomed, imageLoaded)
    }

    constructor()
      ensures State() == Initial
    {
      isZoomed := false;
      imageLoaded := false;
    }

    /**
     * handleKeyDown: the callback to invoke, whether the default action is
     * prevented (space only), and the new flags.
     */
    method HandleKeyDown(key: string, hasPrev: bool, hasNext: bool) returns (cmd: Command, preventDefault: bool)
      modifies this
      ensures cmd == KeyCommand(key, hasPrev, hasNext)
      ensures preventDefault <==> key == " "
      ensures State() == AfterKey(old(State()), key)
    {
      cmd := NoCommand;
      preventDefault := false;
      if key == "Escape" {
        cmd := Close;
      } else if key == "ArrowLeft" {
        if hasPrev {
          cmd := Navigate(Prev);
        }
      } else if key == "ArrowRight" {
        if hasNext {
          cmd := Navigate(Next);
        }
      } else if key == " " {
        preventDefault := true;
        isZoomed := !isZoomed;
      }
    }

    /** The zoom button: flips the zoom. */
    method ZoomButton()
      modifies this
      ensures State() == AfterToggle(old(State()))
    {
      isZoomed := !isZoomed;
    }

    /** A click on the image: flips the zoom. */
    method ImageClick()
      modifies this
      ensures State() == AfterToggle(old(State()))
    {
      isZoomed := !isZoomed;
    }

    /** The image's onLoad: marks it loaded. */
    method ImageLoad()
      modifies this
      ensures imageLoaded && isZoomed == old(isZoomed)
    {
      imageLoaded := true;
    }

    /** The close button and a click on the backdrop: close, flags untouched. */
    method CloseClick() returns (cmd: Command)
      ensures cmd == Close
    {
      cmd := Close;
    }

    /** The previous-photo button, shown only when there is a previous photo. */
    method PrevButton(hasPrev: bool) returns (cmd: Command)
      requires hasPrev
      modifies this
      ensures cmd == Navigate(Prev)
      ensures State() == AfterNavigateButton(old(State()))
    {
      cmd := Navigate(Prev);
      imageLoaded := false;
      isZoomed := false;
    }

    /** The next-photo button, shown only when there is a next photo. */
    method NextButton(hasNext: bool) returns (cmd: Command)
      requires hasNext
      modifies this
      ensures cmd == Navigate(Next)
      ensures State() == AfterNavigateButton(old(State()))
    {
      cmd := Navigate(Next);
      imageLoaded := false;
      isZoomed := false;
    }
  }

  /** Two presses of space on a viewer bring the zoom back to where it was. */
  method SpaceTwice(v: Viewer, hasPrev: bool, hasNext: bool)
    modifies v
    ensures v.State() == old(v.State())
  {
    var cmd1, p1 := v.HandleKeyDown(" ", hasPrev, hasNext);
    var cmd2, p2 := v.HandleKeyDown(" ", hasPrev, hasNext);
    SpaceTwiceRestores(old(v.State()));
  }
}
