/**
 * The slide-menu container as an object whose fields its methods update
 * in place: the panel's state and horizontal origin, the pan recogniser's
 * enabled flag, the child pages, the active page, the opacity of each
 * page's dimming layer, and the log of callbacks made so far.
 *
 * The constructor stands for `init(childs:slideMenuController:)` followed
 * by `viewDidLoad`, so every object already shows its first page.
 */
module Controller {
  import opened Slide

  class SlideMenuController {
    /** Width of the container's view. */
    const viewWidth: real
    /** Width of the side panel, fixed when the view loads. */
    const width: real

    var state: SlideState
    /** x of the panel's frame: -width when closed, 0 when open. */
    var origin: real
    var panEnabled: bool
    var children: seq<PageId>
    var activeChild: Option<PageId>
    /** Opacity of the dimming layer of each child page. */
    var dimming: map<PageId, real>
    /** Every callback made to the delegate and to the panel, oldest first. */
    var log: seq<Event>

    /**
     * What holds between operations: the panel lies in [-width, 0], rests
     * at an end exactly when its state says so, pans are enabled exactly
     * when it is not closed, each child is listed once with one dimming
     * opacity in [0, DimMax], and the delegate has been told the current
     * state (or nothing yet, while the panel is in its initial Closed state).
     */
    ghost predicate Wellformed()
      reads this
    {
      && viewWidth > 0.0
      && width == viewWidth * SlideOverFactor
      && -width <= origin <= 0.0
      && (state == Opened <==> origin == 0.0)
      && (state == Closed <==> origin == -width)
      && panEnabled == (state != Closed)
      && NoDuplicates(children)
      && (forall c :: c in children ==> c in dimming)
      && (forall c :: c in dimming ==> c in children)
      && (forall c :: c in dimming ==> 0.0 <= dimming[c] <= DimMax)
      && (activeChild.Some? ==> activeChild.value in children)
      && ((log == [] && state == Closed) || LastStateChange(log) == Some(state))
    }

    /** A loaded container: well formed and showing a page. */
    ghost predicate Valid()
      reads this
    {
      Wellformed() && activeChild.Some?
    }

    /**
     * The effect of one moveSlideMenu(x, _): the panel goes to x clamped to
     * [-width, 0], the state follows from where it came from and where it
     * went, the callbacks of the move are appended to the log, and the
     * active page's dimming follows the new position.
     */
    twostate predicate MovedTo(x: real)
      reads this
    {
      && width > 0.0
      && origin == Clamp(x, width)
      && state == MoveState(old(origin), origin, width)
      && log == old(log) + MoveEvents(old(origin), origin, width)
      && children == old(children)
      && activeChild == old(activeChild)
      && activeChild.Some?
      && dimming == old(dimming)[activeChild.value := DimOpacity(state, Progress(origin, width))]
    }

    constructor (pages: seq<PageId>, viewWidth: real)
      requires pages != []
      requires viewWidth > 0.0
      ensures Valid()
      ensures this.viewWidth == viewWidth && width == viewWidth * SlideOverFactor
      ensures children == Dedup(pages)
      ensures activeChild == Some(pages[0])
      ensures origin == -width && state == Closed && !panEnabled
      ensures log == [StateChanged(Closing), StateChanged(Closed), ProgressFinished(Closed)]
      ensures forall c :: c in dimming ==> dimming[c] == 0.0
    {
      this.viewWidth := viewWidth;
      width := viewWidth * SlideOverFactor;
      state := Closed;
      origin := -(viewWidth * SlideOverFactor);
      panEnabled := false;
      children := [];
      activeChild := None;
      dimming := map[];
      log := [];
      new;
      for i := 0 to |pages|
        invariant Wellformed()
        invariant children == Dedup(pages[..i])
        invariant activeChild == None && state == Closed && origin == -width && log == []
        invariant forall c :: c in dimming ==> dimming[c] == 0.0
      {
        assert pages[..i + 1][..i] == pages[..i];
        AddChildViewController(pages[i]);
      }
      assert pages[..|pages|] == pages;
      DisplayViewController(children[0]);
    }

    /**
     * Adds a page to the children with a clear dimming layer.  A page that
     * is already a child keeps its place and its layer.
     */
    method AddChildViewController(vc: PageId)
      requires Wellformed()
      modifies this
      ensures Wellformed()
      ensures children == AddIfAbsent(old(children), vc)
      ensures dimming == if vc in old(children) then old(dimming) else old(dimming)[vc := 0.0]
      ensures state == old(state) && origin == old(origin) && panEnabled == old(panEnabled)
      ensures activeChild == old(activeChild) && log == old(log)
    {
      if vc !in children {
        children := children + [vc];
        dimming := dimming[vc := 0.0];
      }
    }

    /** Assigning the state: notify the delegate, then enable pans unless closed. */
    method SetSlideState(s: SlideState)
      modifies this
      ensures state == s
      ensures panEnabled == (s != Closed)
      ensures log == old(log) + [StateChanged(s)]
      ensures origin == old(origin) && children == old(children)
      ensures activeChild == old(activeChild) && dimming == old(dimming)
    {
      state := s;
      log := log + [StateChanged(s)];
      if state != Closed {
        panEnabled := true;
      } else {
        panEnabled := false;
      }
    }

    method OpenSlideMenu()
      requires Valid()
      modifies this
      ensures Valid() && MovedTo(0.0)
      ensures origin == 0.0 && state == Opened && panEnabled
    {
      MoveSlideMenu(0.0, true);
    }

    /**
     * Makes `to` the active page and dims it as for the current state.
     * `from` is kept to mirror `flip(from:to:)`; the Swift code uses it only
     * to remove the old page's view, which is not part of this model.
     */
    method Flip(from: PageId, to: PageId)
      requires to in dimming
      modifies this
      ensures activeChild == Some(to)
      ensures dimming == old(dimming)[to := DimOpacity(state, ZoomFactor)]
      ensures state == old(state) && origin == old(origin) && panEnabled == old(panEnabled)
      ensures children == old(children) && log == old(log)
    {
      activeChild := Some(to);
      AnimateActiveChild(0.9);
    }

    /**
     * Shows page `vc`: adds it to the children if it is new, makes it the
     * active page and closes the panel.
     */
    method DisplayViewController(vc: PageId)
      requires Wellformed()
      modifies this
      ensures Valid()
      ensures children == AddIfAbsent(old(children), vc)
      ensures activeChild == Some(vc)
      ensures origin == -width && state == Closed && !panEnabled
      ensures log == old(log) + MoveEvents(old(origin), -width, width)
      ensures dimming == old(dimming)[vc := 0.0]
    {
      if vc !in children {
        AddChildViewController(vc);
      }
      if activeChild == Some(vc) {
      } else if activeChild == None {
      } else {
        Flip(activeChild.value, vc);
      }
      activeChild := Some(vc);
      MoveSlideMenu(width * -1.0, true);
    }

    /**
     * Handles the screen-edge and the pan recogniser.  A pan that closes
     * the panel disables its recogniser, which then reports Cancelled
     * while the panel is Closed; the table leaves that call without effect.
     */
    method RecognizedSwipeGesture(kind: Recognizer, phase: Phase, x: real)
      requires Valid()
      modifies this
      ensures Valid()
      ensures match SwipeTarget(kind, phase, x, old(state), width)
        case Some(t) => MovedTo(t)
        case None => unchanged(this)
    {
      if x >= width && kind == ScreenEdgePan {
        MoveSlideMenu(0.0, true);
        return;
      }
      if state == Opened && kind == Pan && x < width - PanMargin {
        return;
      }
      match phase {
        case Changed | Began | Possible =>
          MoveSlideMenu(x - width, false);
        case Ended | Cancelled | Failed =>
          match state {
            case Closing =>
              MoveSlideMenu(width * -1.0, true);
            case Opening =>
              MoveSlideMenu(0.0, true);
            case _ =>
          }
      }
    }

    /** A tap right of the open panel closes it; any other tap does nothing. */
    method RecognizedTapGesture(x: real)
      requires Valid()
      modifies this
      ensures Valid()
      ensures old(state) == Opened && x >= viewWidth * SlideOverFactor ==>
        MovedTo(-width) && origin == -width && state == Closed
      ensures !(old(state) == Opened && x >= viewWidth * SlideOverFactor) ==> unchanged(this)
    {
      if state == Opened && x >= viewWidth * SlideOverFactor {
        MoveSlideMenu(-width, true);
      }
    }

    /**
     * Moves the panel towards x.  `animated` only decides whether the
     * final origin is reached through an animation.
     */
    method MoveSlideMenu(x: real, animated: bool)
      requires Valid()
      modifies this
      ensures Valid()
      ensures MovedTo(x)
    {
      var page := activeChild.value;
      assert page in children;
      ghost var from, before := origin, log;

      var point := Min(0.0, x);
      point := Max(-width, point);
      var currentProgress := Max(MapValue(point, -width, 0.0, 1.0, ZoomFactor), ZoomFactor);
      assert point == Clamp(x, width) && currentProgress == Progress(point, width);
      ghost var events := MoveEvents(from, point, width);

      if origin < point {
        SetSlideState(Opening);
      } else {
        SetSlideState(Closing);
      }

      if point == 0.0 {
        SetSlideState(Opened);
        log := log + [ProgressFinished(Opened)];
      } else if point == -width {
        SetSlideState(Closed);
        log := log + [ProgressFinished(Closed)];
      } else {
        log := log + [ProgressChanged((currentProgress - 0.9) / 0.1)];
      }
      assert log == before + events;
      assert state == MoveState(from, point, width);

      origin := point;
      AnimateActiveChild(currentProgress);
      LastStateChangeAppend(before, events);
    }

    /** Sets the opacity of the active page's dimming layer for the current state. */
    method AnimateActiveChild(progress: real)
      requires activeChild.Some? && activeChild.value in dimming
      modifies this`dimming
      ensures dimming == old(dimming)[activeChild.value := DimOpacity(state, progress)]
    {
      var page := activeChild.value;
      if state == Opened {
        dimming := dimming[page := 0.5];
      } else if state == Closed {
        dimming := dimming[page := 0.0];
      } else {
        dimming := dimming[page := 0.5 - (progress - 0.9) * 0.5 / 0.1];
      }
    }
  }
}
