/** The window manager: 32 window slots, a focused flag in each, and one focused pointer. The
    flag and the pointer disagree after some operations; hit testing still agrees with paint
    order. */
module Windows {
  import opened Bytes

  const SLOTS: nat := 32        // WM_MAX_WINDOWS
  const TITLE: nat := 32        // height of a title bar
  const BUTTON: nat := 46       // width of a caption button
  const TASKBAR: nat := 48      // TASKBAR_H

  datatype State = Normal | Maximized | Minimized

  datatype Rect = Rect(x: int, y: int, w: int, h: int)

  datatype Window = Window(active: bool, area: Rect, restore: Rect, state: State, flag: bool)

  // The slots, the focused pointer, and win_count
  datatype Desk = Desk(ws: seq<Window>, focus: Option<nat>, count: nat)

  const EMPTY := Window(false, Rect(0, 0, 0, 0), Rect(0, 0, 0, 0), Normal, false)

  predicate Inside(r: Rect, x: int, y: int) { r.x <= x < r.x + r.w && r.y <= y < r.y + r.h }

  // Drawn by a repaint
  predicate Shown(w: Window) { w.active && w.state != Minimized }

  predicate ShownAt(d: Desk, i: nat) { i < |d.ws| && Shown(d.ws[i]) }

  predicate Hits(d: Desk, i: nat, x: int, y: int) { ShownAt(d, i) && Inside(d.ws[i].area, x, y) }

  predicate Top(d: Desk, i: nat) { d.focus == Some(i) && ShownAt(d, i) }

  function Active(ws: seq<Window>): nat {
    if ws == [] then 0 else Active(ws[..|ws| - 1]) + if ws[|ws| - 1].active then 1 else 0
  }

  // ----- what a repaint draws, in order, and what a hit test should find -----

  // The loop of wm_render over the first n slots
  function Backdrop(ws: seq<Window>, n: nat): seq<nat>
    requires n <= |ws|
  {
    if n == 0 then []
    else Backdrop(ws, n - 1) + if Shown(ws[n - 1]) && !ws[n - 1].flag then [n - 1] else []
  }

  function Painted(d: Desk): seq<nat> {
    Backdrop(d.ws, |d.ws|) +
    if d.focus.Some? && Top(d, d.focus.value) then [d.focus.value] else []
  }

  // r is the last window drawn that covers the point, None if none of them does.
  ghost predicate LastDrawn(d: Desk, order: seq<nat>, x: int, y: int, r: Option<nat>) {
    if r == None then forall k :: 0 <= k < |order| ==> !Hits(d, order[k], x, y)
    else exists k :: 0 <= k < |order| && order[k] == r.value && Hits(d, order[k], x, y)
                     && forall j :: k < j < |order| ==> !Hits(d, order[j], x, y)
  }

  // ----- the invariant -----

  // At most one slot carries the flag, and a shown window that carries it is the focused
  // pointer. (The converse fails after a call that focuses nothing.)
  ghost predicate Inv(d: Desk) {
    && |d.ws| == SLOTS && d.count == Active(d.ws)
    && (d.focus.Some? ==> d.focus.value < SLOTS)
    && (forall i, j :: 0 <= i < SLOTS && 0 <= j < SLOTS && d.ws[i].flag && d.ws[j].flag ==> i == j)
    && (forall i :: 0 <= i < SLOTS && Shown(d.ws[i]) && d.ws[i].flag ==> d.focus == Some(i))
  }

  // Flag and pointer say the same of every shown window.
  ghost predicate Agree(d: Desk) {
    forall i :: 0 <= i < |d.ws| && Shown(d.ws[i]) ==> (d.ws[i].flag <==> d.focus == Some(i))
  }

  // ----- the operations -----

  function ClearFlags(ws: seq<Window>): (r: seq<Window>)
    ensures |r| == |ws|
    ensures forall i :: 0 <= i < |ws| ==> r[i] == ws[i].(flag := false)
  {
    seq(|ws|, i requires 0 <= i < |ws| => ws[i].(flag := false))
  }

  function Raise(w: Window): Window { w.(flag := true, state := if w.state == Minimized then Normal else w.state) }

  // wm_focus; the null window clears the flags and leaves the pointer
  function Focus(d: Desk, i: Option<nat>): Desk
    requires i.Some? ==> i.value < |d.ws|
  {
    var ws := ClearFlags(d.ws);
    if i == None then d.(ws := ws)
    else d.(ws := ws[i.value := Raise(ws[i.value])], focus := i)
  }

  function FirstFree(ws: seq<Window>, i: nat): Option<nat>
    requires i <= |ws|
    decreases |ws| - i
  {
    if i == |ws| then None else if !ws[i].active then Some(i) else FirstFree(ws, i + 1)
  }

  function Fresh(area: Rect): Window { Window(true, area, area, Normal, false) }

  function Create(d: Desk, area: Rect, limit: nat): Desk {
    var i := FirstFree(d.ws, 0);
    if d.count >= limit || i == None || i.value >= |d.ws| then d
    else Focus(d.(ws := d.ws[i.value := Fresh(area)], count := d.count + 1), i)
  }

  function Destroy(d: Desk, i: nat): Desk
    requires i < |d.ws|
  {
    if !d.ws[i].active then d
    else Desk(d.ws[i := d.ws[i].(active := false)], if d.focus == Some(i) then None else d.focus,
              if d.count > 0 then d.count - 1 else 0xFFFF_FFFF)
  }

  // Minimised from the taskbar: the pointer is always cleared, the flag stays
  function Hide(d: Desk, i: nat): Desk
    requires i < |d.ws|
  {
    d.(ws := d.ws[i := d.ws[i].(state := Minimized)], focus := None)
  }

  function RestoreOrFocus(d: Desk, i: nat): Desk
    requires i < |d.ws|
  {
    if d.ws[i].flag && d.ws[i].state != Minimized then Hide(d, i) else Focus(d, Some(i))
  }

  // wm_set_state to Maximized or Normal on a screen of the given size
  function SetState(w: Window, s: State, width: int, height: int): Window {
    if s == Maximized && w.state != Maximized then
      w.(restore := w.area, area := Rect(0, 0, width, height - TASKBAR), state := s)
    else if s == Normal && w.state == Maximized then w.(area := w.restore, state := s)
    else w.(state := s)
  }

  function Zoom(w: Window, width: int, height: int): Window {
    SetState(w, if w.state == Maximized then Normal else Maximized, width, height)
  }

  // Which part of a window a press lands on
  datatype Part = CloseButton | ZoomButton | HideButton | TitleBar | Body

  function PartAt(r: Rect, x: int, y: int): Part {
    var right := r.x + r.w;
    if !(r.y <= y < r.y + TITLE) then Body
    else if right - BUTTON <= x < right then CloseButton
    else if right - 2 * BUTTON <= x < right - BUTTON then ZoomButton
    else if right - 3 * BUTTON <= x < right - 2 * BUTTON then HideButton
    else TitleBar
  }

  // The highest slot below n whose shown window covers the point
  function Highest(d: Desk, n: nat, x: int, y: int): Option<nat>
    requires n <= |d.ws|
  {
    if n == 0 then None
    else if Hits(d, n - 1, x, y) then Some(n - 1)
    else Highest(d, n - 1, x, y)
  }

  // wm_at
  function At(d: Desk, x: int, y: int): Option<nat> {
    if d.focus.Some? && Hits(d, d.focus.value, x, y) then d.focus
    else Highest(d, |d.ws|, x, y)
  }

  // A press of the left button, no drag in progress. A press on the title bar beside the
  // buttons starts a drag, whose record is not part of the desk.
  function Click(d: Desk, x: int, y: int, width: int, height: int): Desk {
    var hit := At(d, x, y);
    if hit == None || hit.value >= |d.ws| then d
    else
      var i := hit.value;
      var f := Focus(d, hit);
      match PartAt(f.ws[i].area, x, y)
      case CloseButton => Destroy(f, i)
      case ZoomButton => f.(ws := f.ws[i := Zoom(f.ws[i], width, height)])
      case HideButton => Hide(f, i)
      case TitleBar => f
      case Body => f
  }

  // ----- runs -----

  datatype Event =
    | ECreate(area: Rect, limit: nat)
    | EDestroy(i: nat)
    | EFocus(target: Option<nat>)
    | ERestoreOrFocus(i: nat)
    | EClick(x: int, y: int, width: int, height: int)

  // Windows are named by pointers into the slot array.
  predicate Named(e: Event) {
    match e
    case EDestroy(i) => i < SLOTS
    case EFocus(t) => t.Some? ==> t.value < SLOTS
    case ERestoreOrFocus(i) => i < SLOTS
    case _ => true
  }

  function Step(d: Desk, e: Event): Desk
    requires |d.ws| == SLOTS && Named(e)
  {
    match e
    case ECreate(area, limit) => Create(d, area, limit)
    case EDestroy(i) => Destroy(d, i)
    case EFocus(t) => Focus(d, t)
    case ERestoreOrFocus(i) => RestoreOrFocus(d, i)
    case EClick(x, y, width, height) => Click(d, x, y, width, height)
  }

  function Start(): Desk { Desk(seq(SLOTS, i => EMPTY), None, 0) }

  function Run(es: seq<Event>): (d: Desk)
    requires forall e :: e in es ==> Named(e)
    ensures |d.ws| == SLOTS
  {
    if es == [] then Start() else Step(Run(es[..|es| - 1]), es[|es| - 1])
  }

  // ----- counting -----

  lemma {:induction false} ActiveUpdate(ws: seq<Window>, i: nat, w: Window)
    requires i < |ws|
    ensures Active(ws[i := w]) == Active(ws) - (if ws[i].active then 1 else 0) + (if w.active then 1 else 0)
  {
    var n := |ws| - 1;
    if i == n {
      assert ws[i := w][..n] == ws[..n];
    } else {
      ActiveUpdate(ws[..n], i, w);
      assert ws[i := w][..n] == ws[..n][i := w];
    }
  }

  lemma {:induction false} ActiveSame(ws: seq<Window>, ws': seq<Window>)
    requires |ws| == |ws'| && forall i :: 0 <= i < |ws| ==> ws[i].active == ws'[i].active
    ensures Active(ws) == Active(ws')
  {
    if ws == [] {
    } else {
      ActiveSame(ws[..|ws| - 1], ws'[..|ws| - 1]);
    }
  }

  lemma {:induction false} ActiveBound(ws: seq<Window>)
    ensures Active(ws) <= |ws|
    ensures Active(ws) == |ws| <==> forall i :: 0 <= i < |ws| ==> ws[i].active
    ensures Active(ws) == 0 <==> forall i :: 0 <= i < |ws| ==> !ws[i].active
  {
    if ws == [] {
    } else {
      var n := |ws| - 1;
      ActiveBound(ws[..n]);
      assert forall i :: 0 <= i < n ==> ws[i] == ws[..n][i];
    }
  }

  lemma {:induction false} FirstFreeIs(ws: seq<Window>, i: nat)
    requires i <= |ws|
    ensures var r := FirstFree(ws, i);
      if r == None then forall j :: i <= j < |ws| ==> ws[j].active
      else i <= r.value < |ws| && !ws[r.value].active && forall j :: i <= j < r.value ==> ws[j].active
    decreases |ws| - i
  {
    if i < |ws| && ws[i].active { FirstFreeIs(ws, i + 1); }
  }

  // ----- every operation keeps the invariant -----

  lemma FocusKeeps(d: Desk, i: Option<nat>)
    requires Inv(d) && (i.Some? ==> i.value < SLOTS)
    ensures Inv(Focus(d, i))
    ensures i.Some? ==> Agree(Focus(d, i))
  {
    ActiveSame(d.ws, Focus(d, i).ws);
  }

  lemma HideKeeps(d: Desk, i: nat)
    requires Inv(d) && i < SLOTS && d.ws[i].flag
    ensures Inv(Hide(d, i))
    ensures Agree(d) ==> Agree(Hide(d, i))
  {
    ActiveSame(d.ws, Hide(d, i).ws);
  }

  lemma DestroyKeeps(d: Desk, i: nat)
    requires Inv(d) && i < SLOTS
    ensures Inv(Destroy(d, i))
    ensures Agree(d) ==> Agree(Destroy(d, i))
  {
    if d.ws[i].active { ActiveUpdate(d.ws, i, d.ws[i].(active := false)); }
  }

  // A window is created exactly when the limit allows it and a slot is free; it takes the
  // first free slot and comes up focused.
  lemma CreateIs(d: Desk, area: Rect, limit: nat)
    requires Inv(d)
    ensures var d' := Create(d, area, limit);
      && Inv(d')
      && (d' != d ==> Agree(d'))
      && (d.count >= limit || d.count == 32 <==> d' == d)
      && (d' != d ==>
            && d'.count == d.count + 1 && d'.focus.Some? && d'.focus.value < 32
            && !d.ws[d'.focus.value].active && d'.ws[d'.focus.value] == Window(true, area, area, Normal, true)
            && (forall j :: 0 <= j < d'.focus.value ==> d.ws[j].active)
            && (forall j :: 0 <= j < SLOTS && j != d'.focus.value ==> d'.ws[j] == d.ws[j].(flag := false)))
  {
    FirstFreeIs(d.ws, 0);
    ActiveBound(d.ws);
    var i := FirstFree(d.ws, 0);
    if d.count < limit && i.Some? {
      ActiveUpdate(d.ws, i.value, Fresh(area));
      var m := d.(ws := d.ws[i.value := Fresh(area)], count := d.count + 1);
      ActiveSame(m.ws, Focus(m, i).ws);
    }
  }

  lemma ClickKeeps(d: Desk, x: int, y: int, width: int, height: int)
    requires Inv(d)
    ensures Inv(Click(d, x, y, width, height))
    ensures Agree(d) ==> Agree(Click(d, x, y, width, height))
  {
    var hit := At(d, x, y);
    if hit.Some? {
      HighestIs(d, SLOTS, x, y);
      var i := hit.value;
      FocusKeeps(d, hit);
      var f := Focus(d, hit);
      DestroyKeeps(f, i);
      HideKeeps(f, i);
      ActiveUpdate(f.ws, i, Zoom(f.ws[i], width, height));
    }
  }

  lemma StepKeeps(d: Desk, e: Event)
    requires Inv(d) && Named(e)
    ensures Inv(Step(d, e))
    ensures Agree(d) && e != EFocus(None) ==> Agree(Step(d, e))
  {
    match e
    case ECreate(area, limit) => CreateIs(d, area, limit);
    case EDestroy(i) => DestroyKeeps(d, i);
    case EFocus(t) => FocusKeeps(d, t);
    case ERestoreOrFocus(i) =>
      if d.ws[i].flag && d.ws[i].state != Minimized { HideKeeps(d, i); } else { FocusKeeps(d, Some(i)); }
    case EClick(x, y, width, height) => ClickKeeps(d, x, y, width, height);
  }

  // A single call can break the agreement of flag and pointer, and only one: focusing nothing
  // while the focused window is shown.
  lemma AgreementBroken(d: Desk, e: Event)
    requires Inv(d) && Agree(d) && Named(e)
    ensures Agree(Step(d, e)) <==> !(e == EFocus(None) && d.focus.Some? && Top(d, d.focus.value))
  {
    StepKeeps(d, e);
    if e == EFocus(None) && d.focus.Some? && Top(d, d.focus.value) {
      var i := d.focus.value;
      assert Shown(Focus(d, None).ws[i]) && !Focus(d, None).ws[i].flag;
    }
  }

  // ----- hit testing agrees with paint order -----

  lemma {:induction false} HighestIs(d: Desk, n: nat, x: int, y: int)
    requires n <= |d.ws|
    ensures var r := Highest(d, n, x, y);
      if r == None then forall j: nat :: j < n ==> !Hits(d, j, x, y)
      else r.value < n && Hits(d, r.value, x, y) && forall j: nat :: r.value < j < n ==> !Hits(d, j, x, y)
  {
    if n == 0 {
    } else {
      HighestIs(d, n - 1, x, y);
    }
  }

  // The loop draws the shown windows without the flag, each once, in slot order.
  lemma {:induction false} BackdropIs(ws: seq<Window>, n: nat)
    requires n <= |ws|
    ensures var b := Backdrop(ws, n);
      && (forall k :: 0 <= k < |b| ==> b[k] < n && Shown(ws[b[k]]) && !ws[b[k]].flag)
      && (forall j, k :: 0 <= j < k < |b| ==> b[j] < b[k])
      && (forall i: nat :: i < n && Shown(ws[i]) && !ws[i].flag ==> i in b)
  {
    if n == 0 {
    } else {
      BackdropIs(ws, n - 1);
    }
  }

  // A repaint draws exactly the shown windows, the focused one last; each once, if flag and
  // pointer agree.
  lemma PaintedIs(d: Desk)
    requires Inv(d)
    ensures forall i: nat :: i in Painted(d) <==> ShownAt(d, i)
    ensures d.focus.Some? && ShownAt(d, d.focus.value) ==> Painted(d)[|Painted(d)| - 1] == d.focus.value
    ensures Agree(d) ==> forall j, k :: 0 <= j < k < |Painted(d)| ==> Painted(d)[j] != Painted(d)[k]
  {
    BackdropIs(d.ws, SLOTS);
  }

  // The loop alone: the highest slot hit is the last one it draws over the point.
  lemma HighestIsLast(d: Desk, x: int, y: int)
    requires Inv(d) && forall i: nat :: i < SLOTS && d.ws[i].flag ==> !Hits(d, i, x, y)
    ensures LastDrawn(d, Backdrop(d.ws, SLOTS), x, y, Highest(d, SLOTS, x, y))
  {
    BackdropIs(d.ws, SLOTS);
    HighestIs(d, SLOTS, x, y);
    var b, r := Backdrop(d.ws, SLOTS), Highest(d, SLOTS, x, y);
    if r.Some? {
      assert r.value in b;
      var k :| 0 <= k < |b| && b[k] == r.value;
      assert forall j :: k < j < |b| ==> b[j] > r.value;
    }
  }

  lemma DrawnAfter(d: Desk, b: seq<nat>, i: nat, x: int, y: int, r: Option<nat>)
    requires Hits(d, i, x, y) ==> r == Some(i)
    requires !Hits(d, i, x, y) ==> LastDrawn(d, b, x, y, r)
    ensures LastDrawn(d, b + [i], x, y, r)
  {
    var p := b + [i];
    if Hits(d, i, x, y) {
      assert p[|b|] == i;
    } else if r.Some? {
      var k :| 0 <= k < |b| && b[k] == r.value && Hits(d, b[k], x, y)
               && forall j :: k < j < |b| ==> !Hits(d, b[j], x, y);
      assert p[k] == r.value;
    }
  }

  lemma AtIsLastDrawn(d: Desk, x: int, y: int)
    requires Inv(d)
    ensures LastDrawn(d, Painted(d), x, y, At(d, x, y))
  {
    var b := Backdrop(d.ws, SLOTS);
    assert b + [] == b;
    if !(d.focus.Some? && Hits(d, d.focus.value, x, y)) { HighestIsLast(d, x, y); }
    if d.focus.Some? { DrawnAfter(d, b, d.focus.value, x, y, At(d, x, y)); }
  }

  // In every run, from the empty desk: a hit test finds the last window a repaint draws over
  // the point, the count is the number of active windows, and a shown window with the focused
  // flag is the focused pointer. If no call focuses nothing, the two say the same.
  lemma {:induction false} RunHits(es: seq<Event>, x: int, y: int)
    requires forall e :: e in es ==> Named(e)
    ensures Inv(Run(es)) && LastDrawn(Run(es), Painted(Run(es)), x, y, At(Run(es), x, y))
    ensures EFocus(None) !in es ==> Agree(Run(es))
    decreases |es|
  {
    if es == [] {
      ActiveBound(Start().ws);
    } else {
      RunHits(es[..|es| - 1], x, y);
      StepKeeps(Run(es[..|es| - 1]), es[|es| - 1]);
    }
    AtIsLastDrawn(Run(es), x, y);
  }

  // ----- what the operations do to what is seen -----

  // A focused active window is found at every point of its rectangle.
  lemma FocusRaises(d: Desk, i: nat, x: int, y: int)
    requires Inv(d) && i < SLOTS && d.ws[i].active && Inside(d.ws[i].area, x, y)
    ensures At(Focus(d, Some(i)), x, y) == Some(i)
  {
  }

  function Without(order: seq<nat>, i: nat): seq<nat> {
    if order == [] then []
    else Without(order[..|order| - 1], i) + if order[|order| - 1] == i then [] else [order[|order| - 1]]
  }

  lemma WithoutAppend(order: seq<nat>, k: nat, i: nat)
    ensures Without(order + [k], i) == Without(order, i) + if k == i then [] else [k]
  {
    assert (order + [k])[..|order|] == order;
  }

  lemma {:induction false} BackdropWithout(ws: seq<Window>, n: nat, i: nat)
    requires n <= |ws| && i < |ws|
    ensures Backdrop(ws[i := ws[i].(active := false)], n) == Without(Backdrop(ws, n), i)
  {
    if n > 0 {
      BackdropWithout(ws, n - 1, i);
      var b, w := Backdrop(ws, n - 1), ws[n - 1];
      WithoutAppend(b, n - 1, i);
      assert b + [] == b && Without(b, i) + [] == Without(b, i);
      var ws' := ws[i := ws[i].(active := false)];
      assert Backdrop(ws', n) == Backdrop(ws', n - 1) + if Shown(ws'[n - 1]) && !ws'[n - 1].flag then [n - 1] else [];
    }
  }

  // Destroying a window takes it out of the picture and leaves the order of the others; it was
  // counted once, and the pointer follows only if it named it.
  lemma DestroyUncovers(d: Desk, i: nat)
    requires Inv(d) && i < SLOTS && d.ws[i].active
    ensures var d' := Destroy(d, i);
      && Painted(d') == Without(Painted(d), i) && d'.count + 1 == d.count && d'.focus != Some(i)
      && (d.focus != Some(i) ==> d'.focus == d.focus)
      && !d'.ws[i].active && forall j :: 0 <= j < SLOTS && j != i ==> d'.ws[j] == d.ws[j]
  {
    DestroyKeeps(d, i);
    ActiveUpdate(d.ws, i, d.ws[i].(active := false));
    BackdropWithout(d.ws, SLOTS, i);
    var b := Backdrop(d.ws, SLOTS);
    assert b + [] == b && Without(b, i) + [] == Without(b, i);
    if d.focus.Some? { WithoutAppend(b, d.focus.value, i); }
  }

  // The taskbar button of the focused window hides it, and pressed again shows it as it was,
  // unless it was maximised: then it comes back with the full screen as a normal rectangle.
  lemma HideAndShow(d: Desk, i: nat)
    requires Inv(d) && Top(d, i) && d.ws[i].flag
    ensures var d' := RestoreOrFocus(RestoreOrFocus(d, i), i);
      && d' == d.(ws := d.ws[i := d.ws[i].(state := Normal)])
      && (d' == d <==> d.ws[i].state == Normal)
    ensures forall k: nat :: !(Top(RestoreOrFocus(d, i), k))
  {
    var d' := RestoreOrFocus(RestoreOrFocus(d, i), i);
    assert d'.ws == d.ws[i := d.ws[i].(state := Normal)];
    if d.ws[i].state == Normal { assert d'.ws == d.ws; }
  }

  // The zoom button pressed twice brings a normal window back; a window that was maximised,
  // hidden and shown has lost its old rectangle for good.
  lemma ZoomTwice(w: Window, width: int, height: int)
    ensures var z := Zoom(Zoom(w, width, height), width, height);
      w.state == Normal ==> z.area == w.area && z.state == Normal
    ensures var hidden := Zoom(w, width, height).(state := Minimized);
      var back := Raise(hidden);
      w.state == Normal ==> Zoom(Zoom(back, width, height), width, height).area == Rect(0, 0, width, height - TASKBAR)
  {
  }

  // Focusing a window sets its flag, clears all others, and brings it back if it was minimised;
  // nothing else changes. The null window only clears the flags.
  lemma FocusIs(d: Desk, i: nat)
    requires Inv(d) && i < SLOTS
    ensures var d' := Focus(d, Some(i));
      && d'.count == d.count && d'.focus == Some(i) && |d'.ws| == SLOTS
      && (d.ws[i].state != Minimized ==> d'.ws[i] == d.ws[i].(flag := true))
      && (d.ws[i].state == Minimized ==> d'.ws[i] == d.ws[i].(flag := true, state := Normal))
      && (forall j :: 0 <= j < SLOTS && j != i ==> d'.ws[j] == d.ws[j].(flag := false))
    ensures var n := Focus(d, None);
      n.count == d.count && n.focus == d.focus && |n.ws| == SLOTS
      && forall j :: 0 <= j < SLOTS ==> n.ws[j] == d.ws[j].(flag := false)
  {
  }

  // The taskbar button: a window that has the flag and is not minimised is minimised where it is,
  // and nothing is focused; any other comes up focused and, if it exists, shown on top.
  lemma RestoreOrFocusIs(d: Desk, i: nat)
    requires Inv(d) && i < SLOTS
    ensures var d' := RestoreOrFocus(d, i);
      && |d'.ws| == SLOTS && d'.count == d.count
      && (d.ws[i].flag && d.ws[i].state != Minimized ==>
            d'.focus == None && d'.ws == d.ws[i := d.ws[i].(state := Minimized)])
      && (!d.ws[i].flag || d.ws[i].state == Minimized ==>
            && d'.focus == Some(i) && d'.ws[i].flag && d'.ws[i].state != Minimized
            && d'.ws[i].area == d.ws[i].area && d'.ws[i].active == d.ws[i].active
            && (d.ws[i].active ==> Top(d', i) && |Painted(d')| > 0 && Painted(d')[|Painted(d')| - 1] == i)
            && forall j :: 0 <= j < SLOTS && j != i ==> d'.ws[j] == d.ws[j].(flag := false))
  {
  }

  // What a press in the title bar of the window w at x does to it, in pixels: the rightmost 46 of
  // the bar close it, the 46 to their left zoom it, the next 46 minimise it.
  ghost predicate PressedBar(w: Window, w': Window, right: int, x: int, width: int, height: int) {
    && (right - 46 <= x ==> w' == w.(active := false, flag := true))
    && (right - 92 <= x < right - 46 ==>
          w' == if w.state == Maximized then w.(area := w.restore, state := Normal, flag := true)
                else w.(restore := w.area, area := Rect(0, 0, width, height - 48), state := Maximized, flag := true))
    && (right - 138 <= x < right - 92 ==> w' == w.(state := Minimized, flag := true))
    && (x < right - 138 ==> w' == w.(flag := true))
  }

  // A press on no window does nothing. On a window it does, in the bar of 32 pixels, what the
  // button says, and below only focuses; every other window just loses the flag. The window stays
  // the focused one unless it was closed or minimised, and only closing it lowers the count.
  lemma ClickIs(d: Desk, x: int, y: int, width: int, height: int)
    requires Inv(d)
    ensures var (hit, d') := (At(d, x, y), Click(d, x, y, width, height));
      && (hit == None ==> d' == d)
      && (hit.Some? ==>
            && hit.value < SLOTS && Hits(d, hit.value, x, y) && |d'.ws| == SLOTS
            && (forall j :: 0 <= j < SLOTS && j != hit.value ==> d'.ws[j] == d.ws[j].(flag := false))
            && (var (w, w') := (d.ws[hit.value], d'.ws[hit.value]);
                var (right, bar) := (w.area.x + w.area.w, y < w.area.y + 32);
                && (bar ==> PressedBar(w, w', right, x, width, height))
                && (!bar ==> w' == w.(flag := true))
                && d'.count == (if bar && right - 46 <= x then d.count - 1 else d.count)
                && d'.focus == (if bar && (right - 46 <= x || right - 138 <= x < right - 92) then None else hit)))
  {
    HighestIs(d, SLOTS, x, y);
    if At(d, x, y).Some? {
      ActiveBound(d.ws);
    }
  }

  // ----- the focused pointer -----

  // What has the focus is a window that exists.
  predicate Live(d: Desk) { d.focus.Some? && d.focus.value < |d.ws| ==> d.ws[d.focus.value].active }

  // A focus call names a window that exists.
  predicate Sensible(d: Desk, e: Event)
    requires |d.ws| == SLOTS && Named(e)
  {
    match e
    case EFocus(t) => t.Some? ==> d.ws[t.value].active
    case ERestoreOrFocus(i) => d.ws[i].active
    case _ => true
  }

  ghost predicate SensibleRun(es: seq<Event>)
    requires forall e :: e in es ==> Named(e)
  {
    es == [] || (SensibleRun(es[..|es| - 1]) && Sensible(Run(es[..|es| - 1]), es[|es| - 1]))
  }

  lemma LiveStep(d: Desk, e: Event)
    requires Inv(d) && Named(e) && Live(d) && Sensible(d, e)
    ensures Live(Step(d, e))
  {
    match e
    case ECreate(area, limit) => CreateIs(d, area, limit);
    case EClick(x, y, width, height) => ClickIs(d, x, y, width, height);
    case _ =>
  }

  // If only existing windows are focused, the pointer never names a closed one, in any run.
  lemma {:induction false} RunLive(es: seq<Event>)
    requires (forall e :: e in es ==> Named(e)) && SensibleRun(es)
    ensures Live(Run(es))
    decreases |es|
  {
    if es == [] {
    } else {
      RunLive(es[..|es| - 1]);
      RunHits(es[..|es| - 1], 0, 0);
      LiveStep(Run(es[..|es| - 1]), es[|es| - 1]);
    }
  }

  // ----- wm_get -----

  lemma {:induction false} ActiveMonotone(ws: seq<Window>, m: nat, n: nat)
    requires m <= n <= |ws|
    ensures Active(ws[..m]) <= Active(ws[..n])
    decreases n
  {
    if m == n {
    } else {
      ActiveMonotone(ws, m, n - 1);
      assert ws[..n][..n - 1] == ws[..n - 1];
    }
  }

  // ----- the program -----

  class WindowManager {
    const windows: array<Window>
    var focused: Option<nat>
    var count: nat

    ghost function Abs(): Desk
      reads this, windows
    {
      Desk(windows[..], focused, count)
    }

    // wm_init
    constructor ()
      ensures fresh(windows) && Abs() == Start()
    {
      windows := new Window[SLOTS](i => EMPTY);
      focused := None;
      count := 0;
      new;
      assert windows[..] == Start().ws;
    }

    method SetFocus(win: Option<nat>)
      requires windows.Length == SLOTS && (win.Some? ==> win.value < SLOTS)
      modifies windows, `focused
      ensures Abs() == Focus(old(Abs()), win)
    {
      ghost var was := windows[..];
      for i := 0 to SLOTS
        invariant focused == old(focused)
        invariant forall j :: 0 <= j < i ==> windows[j] == was[j].(flag := false)
        invariant forall j :: i <= j < SLOTS ==> windows[j] == was[j]
      {
        windows[i] := windows[i].(flag := false);
      }
      assert windows[..] == ClearFlags(was);
      if win.Some? {
        windows[win.value] := windows[win.value].(flag := true);
        focused := win;
        if windows[win.value].state == Minimized {
          windows[win.value] := windows[win.value].(state := Normal);
        }
      }
      assert windows[..] == Focus(old(Abs()), win).ws;
    }

    method CreateWindow(area: Rect, limit: nat) returns (r: Option<nat>)
      requires windows.Length == SLOTS
      modifies windows, `focused, `count
      ensures Abs() == Create(old(Abs()), area, limit)
      ensures r == if old(count) >= limit then None else FirstFree(old(windows[..]), 0)
    {
      if count >= limit { return None; }
      var i := 0;
      while i < SLOTS && windows[i].active
        invariant i <= SLOTS && FirstFree(windows[..], 0) == FirstFree(windows[..], i)
      {
        i := i + 1;
      }
      if i == SLOTS { return None; }
      windows[i] := Window(true, area, area, Normal, false);
      count := count + 1;
      SetFocus(Some(i));
      return Some(i);
    }

    method DestroyWindow(i: nat)
      requires windows.Length == SLOTS && i < SLOTS
      modifies windows, `focused, `count
      ensures Abs() == Destroy(old(Abs()), i)
    {
      if !windows[i].active { return; }
      windows[i] := windows[i].(active := false);
      if focused == Some(i) { focused := None; }
      count := if count > 0 then count - 1 else 0xFFFF_FFFF;
    }

    method RestoreOrFocusWindow(i: nat)
      requires windows.Length == SLOTS && i < SLOTS
      modifies windows, `focused
      ensures Abs() == RestoreOrFocus(old(Abs()), i)
    {
      if windows[i].flag && windows[i].state != Minimized {
        windows[i] := windows[i].(state := Minimized);
        focused := None;
        return;
      }
      SetFocus(Some(i));
    }

    // The windows drawn, in order
    method Render() returns (drawn: seq<nat>)
      requires windows.Length == SLOTS
      ensures drawn == Painted(Abs())
    {
      drawn := [];
      for i := 0 to SLOTS
        invariant drawn == Backdrop(windows[..], i)
      {
        if windows[i].active && !windows[i].flag && windows[i].state != Minimized {
          drawn := drawn + [i];
        }
      }
      if focused.Some? && focused.value < SLOTS && windows[focused.value].active
         && windows[focused.value].state != Minimized {
        drawn := drawn + [focused.value];
      }
    }

    method WindowAt(x: int, y: int) returns (r: Option<nat>)
      requires windows.Length == SLOTS
      ensures r == At(Abs(), x, y)
      ensures Inv(Abs()) ==> LastDrawn(Abs(), Painted(Abs()), x, y, r)
    {
      if Inv(Abs()) { AtIsLastDrawn(Abs(), x, y); }
      if focused.Some? && focused.value < SLOTS && windows[focused.value].active
         && windows[focused.value].state != Minimized && Inside(windows[focused.value].area, x, y) {
        return focused;
      }
      var i := SLOTS;
      while i > 0
        invariant 0 <= i <= SLOTS && Highest(Abs(), SLOTS, x, y) == Highest(Abs(), i, x, y)
      {
        i := i - 1;
        if windows[i].active && windows[i].state != Minimized && Inside(windows[i].area, x, y) {
          return Some(i);
        }
      }
      return None;
    }

    // The active window with exactly index active ones before it, if there are so many
    method Nth(index: nat) returns (r: Option<nat>)
      requires windows.Length == SLOTS
      ensures r == None <==> index >= Active(windows[..])
      ensures r.Some? ==> r.value < SLOTS && windows[r.value].active && Active(windows[..r.value]) == index
    {
      var n := 0;
      for i := 0 to SLOTS
        invariant n == Active(windows[..i]) <= index
      {
        assert windows[..i + 1][..i] == windows[..i];
        if !windows[i].active { continue; }
        if n == index {
          ActiveMonotone(windows[..], i + 1, SLOTS);
          assert windows[..][..i + 1] == windows[..i + 1] && windows[..][..SLOTS] == windows[..];
          return Some(i);
        }
        n := n + 1;
      }
      assert windows[..SLOTS] == windows[..];
      return None;
    }

    // wm_handle_mouse for a fresh press; true if a drag of the window starts
    method Press(x: int, y: int, width: int, height: int) returns (drag: bool)
      requires windows.Length == SLOTS && Inv(Abs())
      modifies windows, `focused, `count
      ensures Abs() == Click(old(Abs()), x, y, width, height) && Inv(Abs())
      ensures var hit := At(old(Abs()), x, y);
        drag <==> (hit.Some? && hit.value < SLOTS &&
          var r := old(windows[..])[hit.value].area; y < r.y + 32 && x < r.x + r.w - 138)
    {
      ghost var d := Abs();
      ClickKeeps(d, x, y, width, height);
      HighestIs(d, SLOTS, x, y);
      var hit := WindowAt(x, y);
      if hit == None { return false; }
      var i := hit.value;
      SetFocus(hit);
      var (tx, ty, tw) := (windows[i].area.x, windows[i].area.y, windows[i].area.w);
      if !(y >= ty && y < ty + 32) { return false; }
      if x >= tx + tw - 46 && x < tx + tw {
        DestroyWindow(i);
        return false;
      }
      if x >= tx + tw - 92 && x < tx + tw - 46 {
        windows[i] := SetState(windows[i], if windows[i].state == Maximized then Normal else Maximized, width, height);
        return false;
      }
      if x >= tx + tw - 138 && x < tx + tw - 92 {
        windows[i] := windows[i].(state := Minimized);
        if focused == Some(i) { focused := None; }
        return false;
      }
      return true;
    }
  }
}
