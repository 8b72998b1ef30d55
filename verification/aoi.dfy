/** The operations of the two-dimensional area-of-interest index: adding,
    refreshing and deleting an entity, reading a focus set, and resizing the
    plane or the cells. Each operation is one atomic step (the read/write
    lock is left out) and returns the new index together with the visibility
    events it fires; Go's map iteration order is unspecified, so the events
    are a multiset and the callback loop of `addEntity` visits its
    candidates in ascending guid order. */
module Aoi {
  import opened Common
  import opened AoiGrid

  datatype Event =
    | JoinVision(observer: Guid, observed: Guid)
    | LeaveVision(observer: Guid, observed: Guid)

  /** The index after an operation and the events the operation fired. */
  datatype Step = Step(aoi: TwoDimensional, events: multiset<Event>)

  /** `GetFocus`: a copy of the focus set; an unknown guid reads the nil map, i.e. nothing. */
  function GetFocus(t: TwoDimensional, g: Guid): (f: set<Guid>)
    ensures g in t.focus ==> f == t.focus[g]
    ensures g !in t.focus ==> f == {}
  {
    if g in t.focus then t.focus[g] else {}
  }

  /** No entity has anything in its focus set. */
  ghost predicate FocusEmpty(t: TwoDimensional)
  {
    forall k :: k in t.focus ==> t.focus[k] == {}
  }

  /** `areas` with `g` added to cell (w, h). */
  function Place(areas: seq<seq<set<Guid>>>, w: int, h: int, g: Guid): (r: seq<seq<set<Guid>>>)
    requires 0 <= w < |areas| && 0 <= h < |areas[w]|
    ensures |r| == |areas| && forall i :: 0 <= i < |r| ==> |r[i]| == |areas[i]|
    ensures forall i, j :: 0 <= i < |r| && 0 <= j < |r[i]| ==>
              r[i][j] == if i == w && j == h then areas[i][j] + {g} else areas[i][j]
  {
    areas[w := areas[w][h := areas[w][h] + {g}]]
  }

  /** `areas` with `g` removed from cell (w, h). */
  function Unplace(areas: seq<seq<set<Guid>>>, w: int, h: int, g: Guid): (r: seq<seq<set<Guid>>>)
    requires 0 <= w < |areas| && 0 <= h < |areas[w]|
    ensures |r| == |areas| && forall i :: 0 <= i < |r| ==> |r[i]| == |areas[i]|
    ensures forall i, j :: 0 <= i < |r| && 0 <= j < |r[i]| ==>
              r[i][j] == if i == w && j == h then areas[i][j] - {g} else areas[i][j]
  {
    areas[w := areas[w][h := areas[w][h] - {g}]]
  }

  /** The focus members of `g` that are out of `g`'s vision. */
  function Evicted(t: TwoDimensional, world: World, g: Guid): set<Guid>
  {
    set o | o in GetFocus(t, g) && !Sees(world(g), world(o))
  }

  // ---------------------------------------------------------------------------
  // refresh

  /** `refresh`: drop the focus members that left `g`'s vision (from both
      sides, firing nothing), then add what the scan finds. The scan finds
      nothing as written, so a refresh only ever shrinks focus sets and fires
      no event. An unknown guid has a nil focus map: the eviction loop has
      nothing to visit, and the map would only be written if the scan found
      something. */
  function Refresh(t: TwoDimensional, world: World, g: Guid): (s: Step)
    requires t.areaWidth > 0 && t.areaHeight > 0
    ensures s.aoi == t.(focus := s.aoi.focus)
    ensures s.aoi.focus.Keys == t.focus.Keys
    ensures g in t.focus ==>
              s.aoi.focus[g] == set o | o in t.focus[g] && Sees(world(g), world(o))
    ensures forall k :: k in t.focus && k != g ==>
              s.aoi.focus[k] == if k in Evicted(t, world, g) then t.focus[k] - {g} else t.focus[k]
    ensures s.events == multiset{}
  {
    var e := world(g);
    if g !in t.focus then Step(t, multiset{})
    else
      var kept := set o | o in t.focus[g] && Sees(e, world(o));
      var evicted := t.focus[g] - kept;
      var focus1 := map k | k in t.focus ::
        if k == g then kept else if k in evicted then t.focus[k] - {g} else t.focus[k];
      var t1 := t.(focus := focus1);
      var found := Candidates(t1, world, g, ScanBounds(t1, e));
      ScanVisitsNothing(t1, world, g);
      var joined := found - kept;
      Step(t1.(focus := focus1[g := kept + found]),
           multiset(set c | c in joined :: JoinVision(g, c)))
  }

  /** After a refresh every member of the focus set is within vision. */
  lemma RefreshBoundsFocus(t: TwoDimensional, world: World, g: Guid)
    requires t.areaWidth > 0 && t.areaHeight > 0
    ensures forall o :: o in GetFocus(Refresh(t, world, g).aoi, g) ==> Sees(world(g), world(o))
    ensures forall o :: o in Evicted(t, world, g) ==> o !in GetFocus(Refresh(t, world, g).aoi, g)
    ensures forall o :: o in Evicted(t, world, g) && o in t.focus ==>
              g !in GetFocus(Refresh(t, world, g).aoi, o)
  {
  }

  /** A second refresh with nothing moved changes nothing and fires nothing. */
  lemma {:induction false} RefreshIdempotent(t: TwoDimensional, world: World, g: Guid)
    requires t.areaWidth > 0 && t.areaHeight > 0
    ensures Refresh(Refresh(t, world, g).aoi, world, g) == Step(Refresh(t, world, g).aoi, multiset{})
  {
    var s1 := Refresh(t, world, g);
    var s2 := Refresh(s1.aoi, world, g);
    RefreshBoundsFocus(t, world, g);
    assert Evicted(s1.aoi, world, g) == {};
    if g in t.focus {
      assert s2.aoi.focus[g] == s1.aoi.focus[g];
    }
    assert forall k :: k in s1.aoi.focus ==> s2.aoi.focus[k] == s1.aoi.focus[k];
    assert s2.aoi.focus == s1.aoi.focus;
  }

  // ---------------------------------------------------------------------------
  // addEntity

  /** The callback of `addEntity` for each candidate `c`: add `c` to `g`'s
      focus set, fire `(g, c)`, and refresh `c`. */
  function HandleJoins(t: TwoDimensional, world: World, g: Guid, cs: seq<Guid>): (s: Step)
    requires t.areaWidth > 0 && t.areaHeight > 0
    ensures s.aoi == t.(focus := s.aoi.focus)
    decreases |cs|
  {
    if |cs| == 0 then Step(t, multiset{})
    else
      var t1 := t.(focus := t.focus[g := GetFocus(t, g) + {cs[0]}]);
      var r := Refresh(t1, world, cs[0]);
      var rest := HandleJoins(r.aoi, world, g, cs[1..]);
      Step(rest.aoi, multiset{JoinVision(g, cs[0])} + r.events + rest.events)
  }

  /** `addEntity`: file `g` in the cell of its position and install a blank
      focus set for it, replacing any earlier one. The scan finds nothing as
      written, so nothing else changes and no event fires. */
  function AddEntity(t: TwoDimensional, world: World, g: Guid): (s: Step)
    requires InGrid(t, world(g))
    ensures SameShape(t, s.aoi)
    ensures forall w, h :: IsCell(t, w, h) ==>
              s.aoi.areas[w][h] ==
                if w == world(g).x / t.areaWidth && h == world(g).y / t.areaHeight
                then t.areas[w][h] + {g} else t.areas[w][h]
    ensures s.aoi.focus == t.focus[g := {}]
    ensures s.events == multiset{}
    ensures Consistent(t, world) ==> Consistent(s.aoi, world)
  {
    var e := world(g);
    var w := e.x / t.areaWidth;
    var h := e.y / t.areaHeight;
    var t1 := t.(areas := Place(t.areas, w, h, g), focus := t.focus[g := {}]);
    var found := Candidates(t1, world, g, ScanBounds(t1, e));
    ScanVisitsNothing(t1, world, g);
    HandleJoins(t1, world, g, Ascending(found))
  }

  // ---------------------------------------------------------------------------
  // deleteEntity

  /** `deleteEntity`: two leave events per focus member (one each way), `g`
      removed from those members' focus sets, `g`'s own focus set dropped,
      and `g` removed from the cell of its current position. */
  function DeleteEntity(t: TwoDimensional, world: World, g: Guid): (s: Step)
    requires InGrid(t, world(g))
    ensures SameShape(t, s.aoi)
    ensures forall w, h :: IsCell(t, w, h) ==>
              s.aoi.areas[w][h] ==
                if w == world(g).x / t.areaWidth && h == world(g).y / t.areaHeight
                then t.areas[w][h] - {g} else t.areas[w][h]
    ensures s.aoi.focus.Keys == t.focus.Keys - {g}
    ensures forall k :: k in s.aoi.focus ==>
              s.aoi.focus[k] == if k in GetFocus(t, g) then t.focus[k] - {g} else t.focus[k]
    ensures |s.events| == 2 * |GetFocus(t, g)|
    ensures forall o :: o in GetFocus(t, g) ==> LeaveVision(g, o) in s.events && LeaveVision(o, g) in s.events
    ensures forall ev :: ev in s.events ==>
              || (ev == LeaveVision(g, ev.observed) && ev.observed in GetFocus(t, g))
              || (ev == LeaveVision(ev.observer, g) && ev.observer in GetFocus(t, g))
    ensures Consistent(t, world) ==> Consistent(s.aoi, world)
  {
    var f := GetFocus(t, g);
    Step(Unfile(t, world, g).(focus := DropFocus(t.focus, f, g)), LeaveEvents(f, g))
  }

  /** The index with `g` taken out of the cell of its position. */
  function Unfile(t: TwoDimensional, world: World, g: Guid): (u: TwoDimensional)
    requires InGrid(t, world(g))
    ensures SameShape(t, u) && u.focus == t.focus
    ensures forall w, h :: IsCell(t, w, h) ==>
              u.areas[w][h] ==
                if w == world(g).x / t.areaWidth && h == world(g).y / t.areaHeight
                then t.areas[w][h] - {g} else t.areas[w][h]
    ensures Consistent(t, world) ==> Consistent(u, world)
  {
    t.(areas := Unplace(t.areas, world(g).x / t.areaWidth, world(g).y / t.areaHeight, g))
  }

  /** The focus map without `g`'s own entry and without `g` in the sets of the members of `f`. */
  function DropFocus(focus: map<Guid, set<Guid>>, f: set<Guid>, g: Guid): (r: map<Guid, set<Guid>>)
    ensures r.Keys == focus.Keys - {g}
    ensures forall k :: k in r ==> r[k] == if k in f then focus[k] - {g} else focus[k]
  {
    map k | k in focus && k != g :: if k in f then focus[k] - {g} else focus[k]
  }

  /** The leave events of a delete: `(g, o)` and `(o, g)` for every focus member `o`. */
  function LeaveEvents(f: set<Guid>, g: Guid): (ev: multiset<Event>)
    ensures |ev| == 2 * |f|
    ensures forall o :: o in f ==> LeaveVision(g, o) in ev && LeaveVision(o, g) in ev
    ensures forall e :: e in ev ==>
              || (e == LeaveVision(g, e.observed) && e.observed in f)
              || (e == LeaveVision(e.observer, g) && e.observer in f)
  {
    LeaveEventsCount(f, g);
    multiset(set o | o in f :: LeaveVision(g, o)) + multiset(set o | o in f :: LeaveVision(o, g))
  }

  /** One leave event per focus member in each direction. */
  lemma {:induction false} LeaveEventsCount(f: set<Guid>, g: Guid)
    ensures |set o | o in f :: LeaveVision(g, o)| == |f|
    ensures |set o | o in f :: LeaveVision(o, g)| == |f|
    decreases |f|
  {
    if f != {} {
      NonEmpty(f);
      var x :| x in f;
      LeaveEventsCount(f - {x}, g);
      assert (set o | o in f :: LeaveVision(g, o)) == (set o | o in f - {x} :: LeaveVision(g, o)) + {LeaveVision(g, x)};
      assert (set o | o in f :: LeaveVision(o, g)) == (set o | o in f - {x} :: LeaveVision(o, g)) + {LeaveVision(x, g)};
    } else {
      assert (set o | o in f :: LeaveVision(g, o)) == {};
      assert (set o | o in f :: LeaveVision(o, g)) == {};
    }
  }

  /** After a delete, `g` has no focus set and none of its former focus
      members still lists it. */
  lemma DeleteCleansFocus(t: TwoDimensional, world: World, g: Guid)
    requires InGrid(t, world(g))
    ensures GetFocus(DeleteEntity(t, world, g).aoi, g) == {}
    ensures forall k :: k in GetFocus(t, g) ==> g !in GetFocus(DeleteEntity(t, world, g).aoi, k)
  {
  }

  /** Deleting an entity right after adding it restores the index and fires nothing. */
  lemma {:induction false} AddThenDelete(t: TwoDimensional, world: World, g: Guid)
    requires InGrid(t, world(g))
    requires g !in t.focus && !Held(t, g)
    ensures DeleteEntity(AddEntity(t, world, g).aoi, world, g) == Step(t, multiset{})
  {
    var e := world(g);
    var w := e.x / t.areaWidth;
    var h := e.y / t.areaHeight;
    var a := AddEntity(t, world, g).aoi;
    var d := DeleteEntity(a, world, g);
    assert GetFocus(a, g) == {};
    assert d.events == multiset{};
    assert d.aoi.focus == t.focus;
    assert g !in t.areas[w][h];
    assert d.aoi.areas[w] == t.areas[w];
    assert d.aoi.areas == t.areas;
  }

  // ---------------------------------------------------------------------------
  // Rebuilding the grid (`setAreaSize`)

  /** The guids of a column's cells, cell by cell. */
  function ColumnGuids(column: seq<set<Guid>>): (r: seq<Guid>)
    ensures forall g :: g in r <==> exists h :: 0 <= h < |column| && g in column[h]
  {
    if |column| == 0 then []
    else
      var rest := ColumnGuids(column[1..]);
      assert forall g :: g in rest <==> exists h :: 1 <= h < |column| && g in column[h] by {
        forall g ensures g in rest <==> exists h :: 1 <= h < |column| && g in column[h] {
          if g in rest {
            var h :| 0 <= h < |column[1..]| && g in column[1..][h];
            assert g in column[h + 1];
          }
          if exists h :: 1 <= h < |column| && g in column[h] {
            var h :| 1 <= h < |column| && g in column[h];
            assert g in column[1..][h - 1];
          }
        }
      }
      Ascending(column[0]) + rest
  }

  /** The guids of every cell, column by column: the snapshot `setAreaSize` takes. */
  function GridGuids(areas: seq<seq<set<Guid>>>): (r: seq<Guid>)
    ensures forall g :: g in r <==> exists w, h :: 0 <= w < |areas| && 0 <= h < |areas[w]| && g in areas[w][h]
  {
    if |areas| == 0 then []
    else
      var rest := GridGuids(areas[1..]);
      assert forall g :: g in rest <==>
          exists w, h :: 1 <= w < |areas| && 0 <= h < |areas[w]| && g in areas[w][h] by {
        forall g ensures g in rest <==>
            exists w, h :: 1 <= w < |areas| && 0 <= h < |areas[w]| && g in areas[w][h] {
          if g in rest {
            var w, h :| 0 <= w < |areas[1..]| && 0 <= h < |areas[1..][w]| && g in areas[1..][w][h];
            assert g in areas[w + 1][h];
          }
          if exists w, h :: 1 <= w < |areas| && 0 <= h < |areas[w]| && g in areas[w][h] {
            var w, h :| 1 <= w < |areas| && 0 <= h < |areas[w]| && g in areas[w][h];
            assert g in areas[1..][w - 1][h];
          }
        }
      }
      ColumnGuids(areas[0]) + rest
  }

  /** The snapshot lists exactly the held entities. */
  lemma GridGuidsHeld(t: TwoDimensional)
    ensures forall g :: g in GridGuids(t.areas) <==> Held(t, g)
  {
    forall g ensures g in GridGuids(t.areas) <==> Held(t, g) {
      if g in GridGuids(t.areas) {
        var w, h :| 0 <= w < |t.areas| && 0 <= h < |t.areas[w]| && g in t.areas[w][h];
        assert IsCell(t, w, h);
      }
    }
  }

  /** An entity that fits a grid fits every grid of the same shape. */
  lemma ShapeKeepsInGrid(t: TwoDimensional, t': TwoDimensional, world: World, gs: seq<Guid>)
    requires SameShape(t, t')
    requires forall g :: g in gs ==> InGrid(t, world(g))
    ensures forall g :: g in gs ==> InGrid(t', world(g))
  {
    forall g | g in gs ensures InGrid(t', world(g)) {
      assert |t'.areas[world(g).x / t.areaWidth]| == |t.areas[world(g).x / t.areaWidth]|;
    }
  }

  /** `c` is `t` with the entities `gs` deleted: same shape, their focus
      entries gone, and no other focus set gaining a member. */
  ghost predicate DeletesAll(t: TwoDimensional, c: TwoDimensional, gs: seq<Guid>)
  {
    && SameShape(t, c)
    && (forall k :: k in c.focus <==> k in t.focus && k !in gs)
    && (forall k :: k in c.focus ==> c.focus[k] <= t.focus[k])
  }

  /** Every event is a leave between a deleted guid and a member of that
      guid's focus set in `t`, in one direction or the other. */
  ghost predicate LeavesOf(t: TwoDimensional, gs: seq<Guid>, events: multiset<Event>)
  {
    forall ev :: ev in events ==>
      && ev.LeaveVision?
      && (|| (ev.observer in gs && ev.observed in GetFocus(t, ev.observer))
          || (ev.observed in gs && ev.observer in GetFocus(t, ev.observed)))
  }

  /** Deletes the listed entities one after another. */
  function DeleteAll(t: TwoDimensional, world: World, gs: seq<Guid>): (s: Step)
    requires forall g :: g in gs ==> InGrid(t, world(g))
    ensures DeletesAll(t, s.aoi, gs)
    ensures LeavesOf(t, gs, s.events)
    decreases |gs|
  {
    if |gs| == 0 then Step(t, multiset{})
    else
      var d := DeleteEntity(t, world, gs[0]);
      ShapeKeepsInGrid(t, d.aoi, world, gs[1..]);
      var rest := DeleteAll(d.aoi, world, gs[1..]);
      DeleteAllStep(t, d.aoi, rest.aoi, gs);
      DeleteAllEvents(t, d.aoi, gs, d.events, rest.events);
      Step(rest.aoi, d.events + rest.events)
  }

  /** The contract of `DeleteAll` for `gs`, from that of `DeleteEntity` for
      its head and that of `DeleteAll` for its tail. */
  lemma DeleteAllStep(t: TwoDimensional, d: TwoDimensional, r: TwoDimensional, gs: seq<Guid>)
    requires |gs| > 0 && SameShape(t, d)
    requires d.focus.Keys == t.focus.Keys - {gs[0]}
    requires forall k :: k in d.focus ==>
               d.focus[k] == if k in GetFocus(t, gs[0]) then t.focus[k] - {gs[0]} else t.focus[k]
    requires DeletesAll(d, r, gs[1..])
    ensures DeletesAll(t, r, gs)
  {
    assert forall o :: o in gs <==> o == gs[0] || o in gs[1..];
    assert forall k :: k in d.focus <==> k in t.focus && k != gs[0];
    forall w | 0 <= w < |t.areas| ensures |r.areas[w]| == |t.areas[w]| {
      assert |d.areas[w]| == |t.areas[w]|;
    }
  }

  /** The events of `DeleteAll` for `gs`: those of deleting its head, and
      those of its tail, whose focus sets only shrank. */
  lemma DeleteAllEvents(t: TwoDimensional, d: TwoDimensional, gs: seq<Guid>, de: multiset<Event>, re: multiset<Event>)
    requires |gs| > 0
    requires forall k :: k in d.focus ==> d.focus[k] <= GetFocus(t, k)
    requires forall ev :: ev in de ==>
               || (ev == LeaveVision(gs[0], ev.observed) && ev.observed in GetFocus(t, gs[0]))
               || (ev == LeaveVision(ev.observer, gs[0]) && ev.observer in GetFocus(t, gs[0]))
    requires LeavesOf(d, gs[1..], re)
    ensures LeavesOf(t, gs, de + re)
  {
    forall ev | ev in de + re
      ensures ev.LeaveVision?
      ensures || (ev.observer in gs && ev.observed in GetFocus(t, ev.observer))
              || (ev.observed in gs && ev.observer in GetFocus(t, ev.observed))
    {
      if ev in de {
        assert gs[0] in gs;
      } else {
        assert ev in re;
        assert forall o :: o in gs[1..] ==> o in gs;
        assert GetFocus(d, ev.observer) <= GetFocus(t, ev.observer);
        assert GetFocus(d, ev.observed) <= GetFocus(t, ev.observed);
      }
    }
  }

  /** `r` is `t` with the entities `gs` added: same shape, each filed in the
      cell of its position on top of what `t` held there, each with an empty
      focus set, and every other focus set as it was. */
  ghost predicate AddsAll(t: TwoDimensional, r: TwoDimensional, world: World, gs: seq<Guid>)
    requires t.areaWidth > 0 && t.areaHeight > 0
  {
    && SameShape(t, r)
    && (forall w, h, o :: IsCell(t, w, h) ==>
          (o in r.areas[w][h] <==>
             o in t.areas[w][h]
             || (o in gs && world(o).x / t.areaWidth == w && world(o).y / t.areaHeight == h)))
    && (forall k :: k in r.focus <==> k in t.focus || k in gs)
    && (forall k :: k in r.focus ==> r.focus[k] == if k in gs then {} else t.focus[k])
  }

  /** Adds the listed entities one after another. */
  function AddAll(t: TwoDimensional, world: World, gs: seq<Guid>): (s: Step)
    requires t.areaWidth > 0 && t.areaHeight > 0
    requires forall g :: g in gs ==> InGrid(t, world(g))
    ensures AddsAll(t, s.aoi, world, gs)
    ensures s.events == multiset{}
    decreases |gs|
  {
    if |gs| == 0 then Step(t, multiset{})
    else
      var a := AddEntity(t, world, gs[0]);
      ShapeKeepsInGrid(t, a.aoi, world, gs[1..]);
      var rest := AddAll(a.aoi, world, gs[1..]);
      AddAllStep(t, a.aoi, rest.aoi, world, gs);
      Step(rest.aoi, a.events + rest.events)
  }

  /** The contract of `AddAll` for `gs`, from that of `AddEntity` for its
      head and that of `AddAll` for its tail. */
  lemma AddAllStep(t: TwoDimensional, a: TwoDimensional, r: TwoDimensional, world: World, gs: seq<Guid>)
    requires |gs| > 0 && t.areaWidth > 0 && t.areaHeight > 0
    requires SameShape(t, a)
    requires forall w, h :: IsCell(t, w, h) ==>
               a.areas[w][h] ==
                 if w == world(gs[0]).x / t.areaWidth && h == world(gs[0]).y / t.areaHeight
                 then t.areas[w][h] + {gs[0]} else t.areas[w][h]
    requires a.focus == t.focus[gs[0] := {}]
    requires AddsAll(a, r, world, gs[1..])
    ensures AddsAll(t, r, world, gs)
  {
    assert forall o :: o in gs <==> o == gs[0] || o in gs[1..];
    forall w | 0 <= w < |t.areas| ensures |r.areas[w]| == |t.areas[w]| {
      assert |a.areas[w]| == |t.areas[w]|;
    }
    forall w, h, o | IsCell(t, w, h)
      ensures o in r.areas[w][h] <==>
                o in t.areas[w][h]
                || (o in gs && world(o).x / t.areaWidth == w && world(o).y / t.areaHeight == h)
    {
      assert IsCell(a, w, h);
      var g0 := gs[0];
      var here := world(o).x / t.areaWidth == w && world(o).y / t.areaHeight == h;
      assert a.areaWidth == t.areaWidth && a.areaHeight == t.areaHeight;
      assert o in r.areas[w][h] <==> o in a.areas[w][h] || (o in gs[1..] && here);
      assert o in a.areas[w][h] <==> o in t.areas[w][h] || (o == g0 && here);
    }
  }

  /** Every held entity fits the current grid and the grid the new sizes call for. */
  ghost predicate FitsResize(t: TwoDimensional, world: World, width: int, height: int, areaWidth: int, areaHeight: int)
  {
    && areaWidth > 0 && areaHeight > 0 && width >= 0 && height >= 0
    && forall g :: Held(t, g) ==>
         && InGrid(t, world(g))
         && world(g).x / areaWidth <= CeilDiv(width, areaWidth)
         && world(g).y / areaHeight <= CeilDiv(height, areaHeight)
  }

  /** Every event is a leave between a held guid and a member of its focus
      set in `t`, in one direction or the other. */
  ghost predicate LeavesOfHeld(t: TwoDimensional, events: multiset<Event>)
  {
    forall ev :: ev in events ==>
      && ev.LeaveVision?
      && (|| (Held(t, ev.observer) && ev.observed in GetFocus(t, ev.observer))
          || (Held(t, ev.observed) && ev.observer in GetFocus(t, ev.observed)))
  }

  /** Leaves are about cells and focus sets only, so they survive a change
      of the plane size. */
  lemma LeavesOfHeldFrame(t: TwoDimensional, t': TwoDimensional, events: multiset<Event>)
    requires t'.areas == t.areas && t'.focus == t.focus
    requires LeavesOfHeld(t', events)
    ensures LeavesOfHeld(t, events)
  {
    assert forall g :: Held(t', g) ==> Held(t, g) by {
      forall g | Held(t', g) ensures Held(t, g) {
        var w, h :| IsCell(t', w, h) && g in t'.areas[w][h];
        assert IsCell(t, w, h);
      }
    }
    assert forall g :: GetFocus(t', g) == GetFocus(t, g);
  }

  /** With every focus set empty there is nobody to leave. */
  lemma NoLeavesWithoutFocus(t: TwoDimensional, events: multiset<Event>)
    requires FocusEmpty(t) && LeavesOfHeld(t, events)
    ensures events == multiset{}
  {
  }

  /** `setAreaSize`: snapshot every cell, delete every held entity (firing
      its leave events), allocate the grid for the new cell size, and add
      every entity of the snapshot again. */
  function Rebuild(t: TwoDimensional, world: World, areaWidth: int, areaHeight: int): (s: Step)
    requires FitsResize(t, world, t.width, t.height, areaWidth, areaHeight)
    ensures Valid(s.aoi)
    ensures s.aoi.width == t.width && s.aoi.height == t.height
    ensures s.aoi.areaWidth == areaWidth && s.aoi.areaHeight == areaHeight
    ensures forall g :: Held(s.aoi, g) <==> Held(t, g)
    ensures Consistent(s.aoi, world)
    ensures forall g :: Held(t, g) ==> g in s.aoi.focus && s.aoi.focus[g] == {}
    ensures forall k :: k in s.aoi.focus ==> s.aoi.focus[k] <= GetFocus(t, k)
    ensures LeavesOfHeld(t, s.events)
  {
    var held := GridGuids(t.areas);
    GridGuidsHeld(t);
    var cleared := DeleteAll(t, world, held);
    var blank := Reallocate(cleared.aoi, areaWidth, areaHeight);
    BlankFits(t, world, blank, held);
    var filled := AddAll(blank, world, held);
    RebuildSound(t, world, held, cleared.aoi, blank, filled.aoi);
    Step(filled.aoi, cleared.events + filled.events)
  }

  /** The contract of `Rebuild`, from those of the snapshot, `DeleteAll`,
      `Reallocate` and `AddAll`. */
  lemma RebuildSound(t: TwoDimensional, world: World, held: seq<Guid>, cleared: TwoDimensional, blank: TwoDimensional, filled: TwoDimensional)
    requires forall g :: g in held <==> Held(t, g)
    requires DeletesAll(t, cleared, held)
    requires Valid(blank) && blank.width == cleared.width && blank.height == cleared.height && blank.focus == cleared.focus
    requires forall w, h :: IsCell(blank, w, h) ==> blank.areas[w][h] == {}
    requires forall g :: g in held ==> InGrid(blank, world(g))
    requires AddsAll(blank, filled, world, held)
    ensures Valid(filled)
    ensures filled.width == t.width && filled.height == t.height
    ensures filled.areaWidth == blank.areaWidth && filled.areaHeight == blank.areaHeight
    ensures forall g :: Held(filled, g) <==> Held(t, g)
    ensures Consistent(filled, world)
    ensures forall g :: Held(t, g) ==> g in filled.focus && filled.focus[g] == {}
    ensures forall k :: k in filled.focus ==> filled.focus[k] <= GetFocus(t, k)
  {
    RebuildHolds(t, world, blank, filled, held);
    RebuildFocus(t, cleared, blank, filled, world, held);
  }

  /** Rebuilding leaves every held entity with an empty focus set and adds nothing to any other. */
  lemma RebuildFocus(t: TwoDimensional, cleared: TwoDimensional, blank: TwoDimensional, filled: TwoDimensional, world: World, held: seq<Guid>)
    requires DeletesAll(t, cleared, held)
    requires blank.focus == cleared.focus && blank.areaWidth > 0 && blank.areaHeight > 0
    requires AddsAll(blank, filled, world, held)
    requires forall g :: g in held <==> Held(t, g)
    ensures forall g :: Held(t, g) ==> g in filled.focus && filled.focus[g] == {}
    ensures forall k :: k in filled.focus ==> filled.focus[k] <= GetFocus(t, k)
  {
  }

  /** The grid for a cell size: `CeilDiv(width, areaWidth) + 1` columns of
      `CeilDiv(height, areaHeight) + 1` empty cells. */
  function Reallocate(c: TwoDimensional, areaWidth: int, areaHeight: int): (b: TwoDimensional)
    requires areaWidth > 0 && areaHeight > 0 && c.width >= 0 && c.height >= 0
    ensures Valid(b)
    ensures b.width == c.width && b.height == c.height && b.focus == c.focus
    ensures b.areaWidth == areaWidth && b.areaHeight == areaHeight
    ensures forall w, h :: IsCell(b, w, h) ==> b.areas[w][h] == {}
  {
    var widthLimit := CeilDiv(c.width, areaWidth);
    var heightLimit := CeilDiv(c.height, areaHeight);
    c.(areaWidth := areaWidth, areaHeight := areaHeight,
       widthLimit := widthLimit, heightLimit := heightLimit,
       areas := EmptyGrid(widthLimit + 1, heightLimit + 1))
  }

  /** Every held entity fits the freshly allocated grid. */
  lemma BlankFits(t: TwoDimensional, world: World, blank: TwoDimensional, held: seq<Guid>)
    requires Valid(blank)
    requires FitsResize(t, world, blank.width, blank.height, blank.areaWidth, blank.areaHeight)
    requires forall g :: g in held ==> Held(t, g)
    ensures forall g :: g in held ==> InGrid(blank, world(g))
  {
  }

  lemma RebuildHolds(t: TwoDimensional, world: World, blank: TwoDimensional, filled: TwoDimensional, held: seq<Guid>)
    requires Valid(blank)
    requires forall w, h :: IsCell(blank, w, h) ==> blank.areas[w][h] == {}
    requires forall g :: g in held <==> Held(t, g)
    requires forall g :: g in held ==> InGrid(blank, world(g))
    requires AddsAll(blank, filled, world, held)
    ensures Valid(filled)
    ensures forall g :: Held(filled, g) <==> Held(t, g)
    ensures Consistent(filled, world)
  {
    forall g | Held(t, g) ensures Held(filled, g) {
      var w, h := world(g).x / blank.areaWidth, world(g).y / blank.areaHeight;
      assert IsCell(blank, w, h);
      assert g in filled.areas[w][h];
    }
    forall g | Held(filled, g) ensures Held(t, g) {
      var w, h :| IsCell(filled, w, h) && g in filled.areas[w][h];
      assert IsCell(blank, w, h);
      assert g in held;
    }
    forall w, h, g | IsCell(filled, w, h) && g in filled.areas[w][h]
      ensures world(g).x / filled.areaWidth == w && world(g).y / filled.areaHeight == h
    {
      assert IsCell(blank, w, h);
    }
  }

  /** `SetAreaSize`: the same cell size is a no-op, any other rebuilds the grid. */
  function SetAreaSize(t: TwoDimensional, world: World, areaWidth: int, areaHeight: int): (s: Step)
    requires (areaWidth == t.areaWidth && areaHeight == t.areaHeight)
             || FitsResize(t, world, t.width, t.height, areaWidth, areaHeight)
    ensures areaWidth == t.areaWidth && areaHeight == t.areaHeight ==> s == Step(t, multiset{})
    ensures s.aoi.areaWidth == areaWidth && s.aoi.areaHeight == areaHeight
    ensures s.aoi.width == t.width && s.aoi.height == t.height
    ensures forall g :: Held(s.aoi, g) <==> Held(t, g)
    ensures !(areaWidth == t.areaWidth && areaHeight == t.areaHeight) ==>
              Valid(s.aoi) && Consistent(s.aoi, world) && LeavesOfHeld(t, s.events)
  {
    if areaWidth == t.areaWidth && areaHeight == t.areaHeight then Step(t, multiset{})
    else Rebuild(t, world, areaWidth, areaHeight)
  }

  /** `SetSize`: the same plane size is a no-op, any other rebuilds the grid
      for the current cell size. */
  function SetSize(t: TwoDimensional, world: World, width: int, height: int): (s: Step)
    requires (width == t.width && height == t.height)
             || FitsResize(t.(width := width, height := height), world, width, height, t.areaWidth, t.areaHeight)
    ensures width == t.width && height == t.height ==> s == Step(t, multiset{})
    ensures s.aoi.width == width && s.aoi.height == height
    ensures s.aoi.areaWidth == t.areaWidth && s.aoi.areaHeight == t.areaHeight
    ensures forall g :: Held(s.aoi, g) <==> Held(t, g)
    ensures !(width == t.width && height == t.height) ==>
              Valid(s.aoi) && Consistent(s.aoi, world) && LeavesOfHeld(t, s.events)
  {
    if width == t.width && height == t.height then Step(t, multiset{})
    else
      var t' := t.(width := width, height := height);
      var s := Rebuild(t', world, t.areaWidth, t.areaHeight);
      LeavesOfHeldFrame(t, t', s.events);
      s
  }

  /** `NewTwoDimensional`: an empty index with no cell size, resized to the
      given one. A zero cell size equals the blank index's, so `SetAreaSize`
      returns early and the index is left without any cell. */
  function NewTwoDimensional(world: World, width: int, height: int, areaWidth: int, areaHeight: int): (t: TwoDimensional)
    requires width >= 0 && height >= 0
    requires (areaWidth > 0 && areaHeight > 0) || (areaWidth == 0 && areaHeight == 0)
    ensures areaWidth > 0 ==> Valid(t)
    ensures areaWidth == 0 ==> t.areas == [] && t.areaWidth == 0 && t.areaHeight == 0
    ensures areaWidth == 0 ==> forall e :: !InGrid(t, e)
    ensures t.width == width && t.height == height && t.focus == map[]
    ensures forall g :: !Held(t, g)
  {
    var empty := TwoDimensional(width, height, 0, 0, 0, 0, [], map[]);
    var s := SetAreaSize(empty, world, areaWidth, areaHeight);
    s.aoi
  }

  // ---------------------------------------------------------------------------
  // Consequences of the scan as written

  /** Since the scan never reports anyone, no focus set ever gains a member:
      every operation keeps all focus sets empty. */
  lemma FocusStaysEmpty(t: TwoDimensional, world: World, g: Guid, areaWidth: int, areaHeight: int)
    requires FocusEmpty(t)
    ensures InGrid(t, world(g)) ==> FocusEmpty(AddEntity(t, world, g).aoi)
    ensures InGrid(t, world(g)) ==> FocusEmpty(DeleteEntity(t, world, g).aoi)
    ensures t.areaWidth > 0 && t.areaHeight > 0 ==> FocusEmpty(Refresh(t, world, g).aoi)
    ensures FitsResize(t, world, t.width, t.height, areaWidth, areaHeight) ==>
              FocusEmpty(Rebuild(t, world, areaWidth, areaHeight).aoi)
    ensures FitsResize(t, world, t.width, t.height, areaWidth, areaHeight) ==>
              Rebuild(t, world, areaWidth, areaHeight).events == multiset{}
  {
    if FitsResize(t, world, t.width, t.height, areaWidth, areaHeight) {
      RebuildFiresNothing(t, world, areaWidth, areaHeight);
    }
  }

  /** The resize case of `FocusStaysEmpty`: with every focus set empty, a
      rebuild has no leave to fire and leaves every focus set empty. */
  lemma RebuildFiresNothing(t: TwoDimensional, world: World, areaWidth: int, areaHeight: int)
    requires FocusEmpty(t) && FitsResize(t, world, t.width, t.height, areaWidth, areaHeight)
    ensures FocusEmpty(Rebuild(t, world, areaWidth, areaHeight).aoi)
    ensures Rebuild(t, world, areaWidth, areaHeight).events == multiset{}
  {
    NoLeavesWithoutFocus(t, Rebuild(t, world, areaWidth, areaHeight).events);
  }
}
