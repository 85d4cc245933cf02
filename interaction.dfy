/** The control-point store (`ps`, `ps_count`, `ps_selected`) and the mouse
    arms of the event loop that edit it, plus the frame's draw pass over it.

    `Snapshot` and `Step` are the value-level description of the store and of
    one event; the class `Editor` is the store itself, updated in place, and
    each of its event methods is proved to perform `Step`. */
module Interaction {
  import opened Vectors
  import opened Colors
  import opened Render
  import opened ControlPoints

  /** `PS_CAPACITY`. */
  const Capacity: nat := 4

  /** The mouse buttons the event loop may report. */
  datatype MouseButton = Left | Middle | Right | X1 | X2

  /** The events the loop receives. Mouse coordinates are integers. */
  datatype Event =
    | Quit
    | KeyDown(key: int)
    | ButtonDown(button: MouseButton, x: int, y: int)
    | ButtonUp(button: MouseButton, x: int, y: int)
    | Motion(x: int, y: int)

  /** `vec2(event.x, event.y)`: the mouse position as a point. */
  function MousePos(x: int, y: int): (r: Vec2)
    ensures r.x.Floor == x && r.y.Floor == y
    ensures r.x == r.x.Floor as real && r.y == r.y.Floor as real
  {
    Vec2(x as real, y as real)
  }

  /** The whole store as a value: all slots of `ps`, `ps_count` and
      `ps_selected`. */
  datatype Snapshot = Snapshot(slots: seq<Vec2>, count: nat, selected: int)

  /** What the event loop keeps true: at most `Capacity` points are stored, and
      the selection is -1 or a stored index, which only happens once the store
      is full. */
  predicate WellFormed(s: Snapshot)
  {
    && |s.slots| == Capacity
    && s.count <= Capacity
    && -1 <= s.selected < s.count
    && (s.selected >= 0 ==> s.count == Capacity)
  }

  /** The stored control points, in insertion order. */
  function Stored(s: Snapshot): seq<Vec2>
    requires s.count <= |s.slots|
  {
    s.slots[..s.count]
  }

  /** The zero-initialised globals at program start. */
  const Initial := Snapshot([Origin, Origin, Origin, Origin], 0, -1)

  /** One event applied to the store: a left click appends while there is
      room (even on top of an existing point) and otherwise selects by hit
      test; left release deselects; motion moves the selected point. */
  function Step(s: Snapshot, e: Event): (r: Snapshot)
    requires WellFormed(s)
    ensures WellFormed(r)
    ensures s.count <= r.count <= s.count + 1
  {
    match e
    case ButtonDown(Left, x, y) =>
      if s.count < 4 then
        s.(slots := s.slots[s.count % Capacity := MousePos(x, y)], count := s.count + 1)
      else
        s.(selected := FirstHit(Stored(s), MousePos(x, y)))
    case ButtonUp(Left, _, _) =>
      s.(selected := -1)
    case Motion(x, y) =>
      if s.selected > -1 then s.(slots := s.slots[s.selected := MousePos(x, y)]) else s
    case _ =>
      s
  }

  /** A batch of events applied in order. */
  function Run(s: Snapshot, es: seq<Event>): (r: Snapshot)
    requires WellFormed(s)
    ensures WellFormed(r)
    ensures s.count <= r.count
    decreases |es|
  {
    if es == [] then s else Step(Run(s, es[..|es| - 1]), es[|es| - 1])
  }

  /** A left click while there is room appends the position to the stored
      points and leaves the selection alone, whether or not it lands on an
      existing point; the hit test then finds the click. */
  lemma ClickAppends(s: Snapshot, x: int, y: int)
    requires WellFormed(s) && s.count < Capacity
    ensures var r := Step(s, ButtonDown(Left, x, y));
            && Stored(r) == Stored(s) + [MousePos(x, y)]
            && r.selected == s.selected
            && 0 <= FirstHit(Stored(r), MousePos(x, y)) <= s.count
  {
    var r := Step(s, ButtonDown(Left, x, y));
    assert Stored(r) == Stored(s) + [MousePos(x, y)];
    StoredPointIsHit(Stored(r), s.count);
  }

  /** A left click on a full store moves nothing and selects the first point
      whose box holds the click; a click on a stored point always selects. */
  lemma ClickWhenFull(s: Snapshot, x: int, y: int)
    requires WellFormed(s) && s.count == Capacity
    ensures var r := Step(s, ButtonDown(Left, x, y));
            && r.slots == s.slots && r.count == Capacity
            && r.selected == FirstHit(Stored(s), MousePos(x, y))
            && (r.selected >= 0 <==> exists k :: 0 <= k < Capacity && HitBox(s.slots[k], MousePos(x, y)))
  {
    var r := Step(s, ButtonDown(Left, x, y));
    if r.selected >= 0 {
      assert HitBox(Stored(s)[r.selected], MousePos(x, y));
    }
  }

  /** The store never holds more than four points and never loses one. */
  lemma {:induction false} RunCountBounded(s: Snapshot, es: seq<Event>)
    requires WellFormed(s)
    ensures s.count <= Run(s, es).count <= Capacity
    ensures Run(s, es).count <= s.count + |es|
    decreases |es|
  {
    if es != [] {
      RunCountBounded(s, es[..|es| - 1]);
    }
  }

  /** The drag invariant: while a point is selected, any run of motion
      events leaves the other slots, the count and the selection alone and
      puts the selected point at the last motion's position. */
  lemma {:induction false} DragMovesOnlySelected(s: Snapshot, es: seq<Event>)
    requires WellFormed(s) && s.selected >= 0
    requires forall i :: 0 <= i < |es| ==> es[i].Motion?
    ensures var r := Run(s, es);
            && r.count == s.count && r.selected == s.selected
            && (forall k :: 0 <= k < Capacity && k != s.selected ==> r.slots[k] == s.slots[k])
            && (es != [] ==> r.slots[s.selected] == MousePos(es[|es| - 1].x, es[|es| - 1].y))
            && (es == [] ==> r.slots == s.slots)
    decreases |es|
  {
    if es != [] {
      DragMovesOnlySelected(s, es[..|es| - 1]);
    }
  }

  /** A fresh store that receives one left click at (10, 10) holds exactly
      that point and has nothing selected. */
  lemma FirstClickScenario()
    ensures var r := Step(Initial, ButtonDown(Left, 10, 10));
            Stored(r) == [Vec2(10.0, 10.0)] && r.selected == -1
  {
  }

  /** The editor: the globals `ps`, `ps_count` and `ps_selected`. */
  class Editor {
    var ps: array<Vec2>
    var count: nat
    var selected: int

    /** The store's fields as a value. */
    ghost function Snap(): Snapshot
      reads this, ps
    {
      Snapshot(ps[..], count, selected)
    }

    ghost predicate Valid()
      reads this, ps
    {
      ps.Length == Capacity && WellFormed(Snap())
    }

    /** The stored control points, `ps[0 .. ps_count)`. */
    ghost function Points(): seq<Vec2>
      reads this, ps
      requires Valid()
    {
      Stored(Snap())
    }

    /** The store at program start: four zero slots, none used, none selected. */
    constructor ()
      ensures Valid() && fresh(ps)
      ensures Snap() == Initial
    {
      ps := new Vec2[4](_ => Origin);
      count := 0;
      selected := -1;
      new;
      assert ps[..] == [Origin, Origin, Origin, Origin];
    }

    /** `ps_at`: scan the stored points in order and return the index of the
        first whose box holds `pos`, or -1. */
    method At(pos: Vec2) returns (i: int)
      requires Valid()
      ensures i == FirstHit(Points(), pos)
    {
      var k := 0;
      while k < count
        invariant 0 <= k <= count
        invariant forall j :: 0 <= j < k ==> !HitBox(ps[j], pos)
      {
        if HitBox(ps[k], pos) {
          assert Points()[k] == ps[k];
          return k;
        }
        k := k + 1;
      }
      return -1;
    }

    /** `SDL_MOUSEBUTTONDOWN`: a left click stores the position in the next
        free slot while fewer than four points are stored, and otherwise
        selects the point under it (or none). */
    method OnButtonDown(button: MouseButton, x: int, y: int)
      requires Valid()
      modifies this, ps
      ensures Valid() && ps == old(ps)
      ensures Snap() == Step(old(Snap()), ButtonDown(button, x, y))
      ensures button == Left && old(count) < Capacity ==>
                ps[..] == old(ps[..])[old(count) := MousePos(x, y)]
                && count == old(count) + 1 && selected == old(selected)
      ensures button == Left && old(count) == Capacity ==>
                ps[..] == old(ps[..]) && count == old(count)
                && selected == FirstHit(old(Points()), MousePos(x, y))
      ensures button != Left ==> Snap() == old(Snap())
    {
      if button == Left {
        var mousePos := MousePos(x, y);
        if count < 4 {
          ps[count % Capacity] := mousePos;
          count := count + 1;
        } else {
          selected := At(mousePos);
        }
      }
    }

    /** `SDL_MOUSEBUTTONUP`: releasing the left button ends any drag. */
    method OnButtonUp(button: MouseButton, x: int, y: int)
      requires Valid()
      modifies this
      ensures Valid() && ps == old(ps)
      ensures Snap() == Step(old(Snap()), ButtonUp(button, x, y))
      ensures ps[..] == old(ps[..]) && count == old(count)
      ensures selected == if button == Left then -1 else old(selected)
    {
      if button == Left {
        selected := -1;
      }
    }

    /** `SDL_MOUSEMOTION`: while a point is selected it follows the mouse;
        every other slot stays as it was. */
    method OnMotion(x: int, y: int)
      requires Valid()
      modifies ps
      ensures Valid()
      ensures Snap() == Step(old(Snap()), Motion(x, y))
      ensures selected > -1 ==> ps[..] == old(ps[..])[selected := MousePos(x, y)]
      ensures selected == -1 ==> ps[..] == old(ps[..])
    {
      var mousePos := MousePos(x, y);
      if selected > -1 {
        ps[selected] := mousePos;
      }
    }

    /** One arm of the event switch; reports whether the event asks to quit. */
    method HandleEvent(e: Event) returns (quit: bool)
      requires Valid()
      modifies this, ps
      ensures Valid() && ps == old(ps)
      ensures Snap() == Step(old(Snap()), e)
      ensures quit == e.Quit?
    {
      quit := false;
      match e {
        case Quit =>
          quit := true;
        case KeyDown(_) =>
        case ButtonDown(button, x, y) =>
          OnButtonDown(button, x, y);
        case ButtonUp(button, x, y) =>
          OnButtonUp(button, x, y);
        case Motion(x, y) =>
          OnMotion(x, y);
      }
    }

    /** The inner `while (SDL_PollEvent(...))` loop: apply the pending events
        in order; report whether any of them was a quit request. */
    method PollEvents(events: seq<Event>) returns (quit: bool)
      requires Valid()
      modifies this, ps
      ensures Valid() && ps == old(ps)
      ensures Snap() == Run(old(Snap()), events)
      ensures quit <==> exists i :: 0 <= i < |events| && events[i].Quit?
    {
      quit := false;
      var i := 0;
      while i < |events|
        invariant 0 <= i <= |events|
        invariant Valid() && ps == old(ps)
        invariant Snap() == Run(old(Snap()), events[..i])
        invariant quit <==> exists j :: 0 <= j < i && events[j].Quit?
      {
        var q := HandleEvent(events[i]);
        assert events[..i + 1][..i] == events[..i];
        quit := quit || q;
        i := i + 1;
      }
      assert events[..i] == events;
    }

    /** The draw pass of one frame: a marker on each stored point, then, once
        four are stored, the edges p0-p1 and p2-p3 and the sampled curve. */
    method Frame() returns (cmds: seq<DrawCmd>)
      requires Valid()
      ensures cmds == FrameCommands(Points())
    {
      cmds := [];
      var i := 0;
      while i < count
        invariant 0 <= i <= count
        invariant cmds == ControlMarkers(ps[..i])
      {
        cmds := cmds + [RenderMarker(ps[i], RedColor)];
        i := i + 1;
      }
      assert ps[..count] == Points();
      if count >= 4 {
        var curve := RenderBezierMarkers(ps[0], ps[1], ps[2], ps[3], CurveStep, GreenColor);
        cmds := cmds + [Line(ps[0], ps[1], RedColor), Line(ps[2], ps[3], RedColor)] + curve;
      }
    }
  }
}
