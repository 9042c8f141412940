# FWSlideMenu: the slide-menu container, modelled in Dafny

FWSlideMenu is a container view controller. It holds a list of child pages
and a side panel that slides in from the left. The panel is opened by a pan
from the screen edge or by a button, and it is closed by a pan, a tap right
of the panel, or by choosing a page. While the panel moves, the active page
is zoomed and dimmed in step with it. The panel is told the progress of the
move, and an optional delegate is told every change of the slide state.

This project models the container's logic from
`FWSlideMenu/FWSlideMenu/FWSlideMenuController.swift`:

- module `Slide` (`slide.dfy`) holds the values:
  - the four-valued `SlideState`;
  - the callback `Event`s;
  - the geometry of a move: `MapValue`, `Clamp`, `Progress`, `ProgressPercent` and `DimOpacity`;
  - the state (`MoveState`) and callbacks (`MoveEvents`) a move produces;
  - the gesture dispatch table (`SwipeTarget`);
  - the child-list helpers.
- module `Controller` (`controller.dfy`) holds the class `SlideMenuController`. Its fields are the panel's state and origin, the pan recogniser's enabled flag, the children, the active child, each child's dimming opacity, and a log of every callback. Its methods change these fields step by step, as the Swift methods do. `Wellformed()` and `Valid()` state the container's invariant. The constructor establishes it, and `AddChildViewController`, `OpenSlideMenu`, `DisplayViewController`, `MoveSlideMenu`, `RecognizedSwipeGesture` and `RecognizedTapGesture` keep it. `SetSlideState`, `Flip` and `AnimateActiveChild` are steps inside those methods, during which the invariant may be broken for a moment (as the Swift setter breaks it inside `moveSlideMenu`); they are specified only by their effect on the fields. The invariant says:
  - the origin lies in `[-width, 0]`;
  - the state is Opened exactly at 0 and Closed exactly at `-width`;
  - pans are enabled exactly when the panel is not Closed;
  - every child is listed once, with a dimming opacity in `[0, 0.5]`;
  - the last state the delegate was told is the current one.

Each `moveSlideMenu` is specified by the two-state predicate `MovedTo(x)`:

- the origin becomes `Clamp(x, width)`;
- the state becomes `MoveState(old origin, new origin, width)`;
- the log grows by `MoveEvents(old origin, new origin, width)`;
- the active page's dimming becomes `DimOpacity(state, Progress(origin, width))`.

Each gesture handler is specified as either `MovedTo` the target named by the dispatch table, or no change at all.

`CGFloat` values are modelled as exact reals. The model uses these constants:

- `zoomFactor = 0.9`;
- `slideOverFactor = 0.7`;
- the pan margin 20;
- the full dimming opacity 0.5.

The constructor stands for `init(childs:slideMenuController:)` followed by `viewDidLoad`:

- the panel width is `viewWidth * slideOverFactor`;
- the panel starts at `-width`;
- the first child is displayed, which closes the panel.

A child page is identified by an integer, since view controllers are compared by identity. Callbacks are recorded in the log as if a delegate were set. The Swift code calls the delegate through an optional.

## Model

| member | source | states |
|---|---|---|
| `Slide.MapValue` | FWSlideMenu/FWSlideMenu/FWSlideMenuController.swift:195-198 | the nested linear map sends `in_min` to `out_min` and `in_max` to `out_max`; a point inside the input range lands inside the output range, strictly when strictly inside, for a decreasing map (the one the source uses) and an increasing one alike |
| `Slide.Clamp` | FWSlideMenu/FWSlideMenu/FWSlideMenuController.swift:200-202 | the clamped point always lies in `[-width, 0]`; it equals the request inside that range, 0 above it and `-width` below it |
| `Slide.Progress` | FWSlideMenu/FWSlideMenu/FWSlideMenuController.swift:204 | `currentProgress` lies in `[0.9, 1]` for every clamped point, strictly inside away from the ends; it is 1 at `-width` (closed) and 0.9 at 0 (open) |
| `Slide.ProgressPercent` | FWSlideMenu/FWSlideMenu/FWSlideMenuController.swift:219 | the percentage `(p - 0.9) / 0.1` passed to `progressChanged` lies in `[0, 1]` for progress in `[0.9, 1]`, strictly inside for progress strictly inside; 0 at 0.9 and 1 at 1 |
| `Slide.PercentIsHiddenShare` | FWSlideMenu/FWSlideMenu/FWSlideMenuController.swift:195-219 | the percentage reported for a clamped point is `-point / width`, the share of the panel still off screen (0 open, 1 closed) |
| `Slide.DimOpacity` | FWSlideMenu/FWSlideMenu/FWSlideMenuController.swift:241-251 | the dimming opacity is 0.5 when Opened, 0 when Closed, and for a moving state lies in `[0, 0.5]` for progress in `[0.9, 1]`, with 0.5 at 0.9 and 0 at 1 |
| `Slide.DimmingFollowsPosition` | FWSlideMenu/FWSlideMenu/FWSlideMenuController.swift:204-251 | after any move, the dimming opacity is `0.5 * (point + width) / width` whichever state the move ends in, so the Opened/Closed override causes no jump |
| `Slide.MoveState` | FWSlideMenu/FWSlideMenu/FWSlideMenuController.swift:206-217 | the state after a move is Opened exactly when the point is 0, Closed exactly when it is `-width`, otherwise Opening exactly when the previous origin was below the point and Closing exactly when it was not |
| `Slide.MoveEvents` | FWSlideMenu/FWSlideMenu/FWSlideMenuController.swift:206-220 | a move makes exactly one panel callback, as the last event, after one delegate notification per state assignment (two when an end is reached, one otherwise): `progressFinished(Opened)` at 0, `progressFinished(Closed)` at `-width`, otherwise `progressChanged` with a fraction strictly between 0 and 1; the last state notified is the state the move ends in |
| `Slide.OpenWhileOpenReportsClosing` | FWSlideMenu/FWSlideMenu/FWSlideMenuController.swift:206-214 | moving an already open panel to 0 tells the delegate Closing, then Opened, then reports `progressFinished(Opened)` |
| `Slide.LastStateChange` | FWSlideMenu/FWSlideMenu/FWSlideMenuController.swift:34-36 | the result is the state of a StateChanged in the log after which no other StateChanged follows, i.e. the most recent state told to the delegate; none means the delegate was never notified |
| `Slide.LastStateChangeAppend` | FWSlideMenu/FWSlideMenu/FWSlideMenuController.swift:34-36 | after more callbacks are made, the delegate's latest state is the latest in the new callbacks if they include a state change, else the earlier one |
| `Slide.SwipeTarget` | FWSlideMenu/FWSlideMenu/FWSlideMenuController.swift:162-191 | the dispatch table: a screen-edge pan at or right of the panel's width opens fully; an Opened panel ignores a pan left of `width - 20`; a tracking phase moves to `x - width`; an ending phase moves a Closing panel to `-width`, an Opening one to 0, and leaves the others |
| `Slide.GestureEndSettles` | FWSlideMenu/FWSlideMenu/FWSlideMenuController.swift:164-188 | when a gesture ends, a Closing panel ends at `-width` and Closed, an Opening panel at 0 and Opened, a resting panel is left alone; a screen-edge pan past the width opens the panel instead |
| `Slide.TrackingFollowsFinger` | FWSlideMenu/FWSlideMenu/FWSlideMenuController.swift:173-178 | while the finger is down within the panel's reach, the panel's right edge is under the finger |
| `Slide.AddIfAbsent` | FWSlideMenu/FWSlideMenu/FWSlideMenuController.swift:104-106 | after adding a page, the page is a child, no other page is added, a listed page is not added again, and a list without duplicates stays without duplicates |
| `Slide.Dedup` | FWSlideMenu/FWSlideMenu/FWSlideMenuController.swift:61-63 | the children registered by init hold each given page exactly once, the first child is the first given page, and a list of distinct pages is registered unchanged, in the order given |
| `Slide.DedupKeepsFirstOccurrenceOrder` | FWSlideMenu/FWSlideMenu/FWSlideMenuController.swift:61-63 | the registered children keep the order of their first occurrence in the given list |
| `Controller.SlideMenuController.constructor` | FWSlideMenu/FWSlideMenu/FWSlideMenuController.swift:56-152 | a non-empty page list and a positive view width give a valid container: the panel has width `viewWidth * 0.7`, is Closed at `-width` with pans disabled, and shows the first page; the children are the given pages, each once; every dimming layer is clear; the log holds the one move of `displayViewController` |
| `Controller.SlideMenuController.AddChildViewController` | FWSlideMenu/FWSlideMenu/FWSlideMenuController.swift:71-83 | a new child is appended with a clear (opacity 0) dimming layer; nothing else changes |
| `Controller.SlideMenuController.SetSlideState` | FWSlideMenu/FWSlideMenu/FWSlideMenuController.swift:34-44 | assigning the state notifies the delegate with the new state and enables the pan recogniser exactly when the state is not Closed |
| `Controller.SlideMenuController.OpenSlideMenu` | FWSlideMenu/FWSlideMenu/FWSlideMenuController.swift:85-87 | the panel ends Opened at origin 0 with pans enabled, after the callbacks of one move to 0 |
| `Controller.SlideMenuController.Flip` | FWSlideMenu/FWSlideMenu/FWSlideMenuController.swift:89-101 | the target page becomes active and its dimming is set for the current state at progress 0.9 |
| `Controller.SlideMenuController.DisplayViewController` | FWSlideMenu/FWSlideMenu/FWSlideMenuController.swift:103-118 | the page is a child (appended, once, if new), it is the active child, the panel is Closed at `-width` with pans disabled, the log grows by one move's callbacks, and the page's dimming is clear |
| `Controller.SlideMenuController.RecognizedSwipeGesture` | FWSlideMenu/FWSlideMenu/FWSlideMenuController.swift:162-191 | the container either makes exactly the move `SwipeTarget` names or does not change at all, and stays valid |
| `Controller.SlideMenuController.RecognizedTapGesture` | FWSlideMenu/FWSlideMenu/FWSlideMenuController.swift:156-160 | a tap at or right of `viewWidth * 0.7` on an Opened panel closes it (Closed at `-width`); any other tap changes nothing |
| `Controller.SlideMenuController.MoveSlideMenu` | FWSlideMenu/FWSlideMenu/FWSlideMenuController.swift:193-231 | the origin becomes the clamped request, the state follows `MoveState`, the log grows by exactly `MoveEvents`, and the active page's dimming follows `DimOpacity`; the container stays valid, which keeps the position, state, pan flag and delegate view consistent |
| `Controller.SlideMenuController.AnimateActiveChild` | FWSlideMenu/FWSlideMenu/FWSlideMenuController.swift:233-251 | the active page's dimming layer gets `DimOpacity` for the current state; other layers are untouched |

## Left out

- The 3D transforms applied to the active page: the scale, the rotation, `m34 = 1/600` and `CATransform3DMakeScale`. They are matrix rendering with no logical contract. For the same reason, the `toState` argument of `animateActiveChild` is not modelled: it selects only the transform.
- Animation timing and the presentation layer. This covers `UIView.animateWithDuration`, `CABasicAnimation` and the durations. An animated move is modelled as setting its final value, and `animated` does not change the model's result.
- The view hierarchy: `addSubview`, `removeFromSuperview`, `bringSubviewToFront`, `zPosition`, the panel's frame height, and `didMoveToParentViewController`. Only the panel's x origin is kept.
- The gesture recognisers as objects. A gesture is given as its recogniser kind, phase and x. The pan recogniser's enabled flag is kept as `panEnabled`, but the model does not decide which calls UIKit delivers: `RecognizedSwipeGesture` accepts any kind in any state, including the Cancelled pan UIKit reports after a move has closed the panel and disabled the recogniser.
- AddChildViewController: how UIKit treats a controller that is already a child is not part of this model. The model keeps such a child once, in its first place, together with its first dimming layer. The dimming lookup takes the first layer in any case.
- `init?(coder:)`, and the separate lifecycle step between `init` and `viewDidLoad`. The constructor performs both. The `fatalError` on an empty child list becomes the constructor's requirement that the list is non-empty.
- A change of the public `slideOverFactor` after loading. It is fixed at 0.7.
- Resizing or rotating the container's view. The container keeps its load-time width `viewWidth`, so the model's tap threshold `viewWidth * slideOverFactor` equals the panel width. In the Swift code the tap test reads the view's current width on every tap, while the panel width is set once when the view loads; after a resize the two differ.
- IEEE rounding of `CGFloat` and the `Float` conversion of the opacity. Exact reals are used, and the panel width is required to be positive.
- The delegate and the panel as objects. Their callbacks are recorded in the log, in order, as if the delegate were set.
- The demo applications, which are table and button glue.
