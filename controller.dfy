/** The radius marker component: the ring groups it owns, one visibility flag per group,
    the anchor position, and the tools that (re)build the groups. */
module RadiusMarkerController {
  import opened RingGeometry
  import RingGenerator

  datatype Option<T> = None | Some(value: T)

  /** A world position; the marker only stores it, it never computes with it. */
  datatype Vec3 = Vec3(x: real, y: real, z: real)

  /** A reference to the prefab instantiated for every marker node. */
  datatype Prefab = Prefab(id: nat)

  /** How a call ended: normally, or with the index-out-of-range exception the engine
      raises on markerNodes[index]. */
  datatype Outcome = Done | IndexOutOfRange(index: int)

  class RadiusMarker {
    var prefab: Option<Prefab>
    var markerLayout: Layout
    var markerSize: real
    var markerSpacing: real
    var markerRadius: int
    /** The ring groups markerNodes refers to, as lattice offsets; group i is ring distance i + 1. */
    var markerNodes: seq<seq<Point>>
    /** Active state of each group of markerNodes. */
    var active: array<bool>
    /** Groups currently parented under the marker's transform. */
    var children: seq<seq<Point>>
    /** The anchor (transform.position). */
    var position: Vec3
    /** The layout markerNodes was last built for; the inspector field markerLayout may have
        been edited since. */
    ghost var builtLayout: Layout

    ghost predicate Valid()
      reads this
    {
      active.Length == |markerNodes| && AreRings(builtLayout, markerNodes)
    }

    /** p is a visible marker node: it lies in a group whose flag is on. */
    ghost predicate Visible(p: Point)
      reads this, active
    {
      Shown(markerNodes, active[..], p)
    }

    /** A fresh component with the inspector defaults and no groups yet. */
    constructor (position: Vec3)
      ensures Valid()
      ensures prefab == None && markerLayout == Hex && markerSize == 1.0 && markerSpacing == 1.0
      ensures markerRadius == 1 && markerNodes == [] && children == [] && this.position == position
      ensures fresh(active) && builtLayout == Hex
    {
      prefab := None;
      markerLayout := Hex;
      markerSize := 1.0;
      markerSpacing := 1.0;
      markerRadius := 1;
      markerNodes := [];
      active := new bool[0];
      children := [];
      this.position := position;
      builtLayout := Hex;
    }

    /** Hide all nodes of the marker. */
    method HideAll()
      requires Valid()
      modifies active
      ensures forall i :: 0 <= i < active.Length ==> !active[i]
      ensures forall p :: !Visible(p)
    {
      for i := 0 to active.Length
        invariant forall k :: 0 <= k < i ==> !active[k]
      {
        active[i] := false;
      }
      forall p ensures !Visible(p) {
        ShownIffFlagged(builtLayout, markerNodes, active[..], p);
      }
    }

    /** Show all nodes of the marker. */
    method ShowAll()
      requires Valid()
      modifies active
      ensures forall i :: 0 <= i < active.Length ==> active[i]
      ensures forall p :: Visible(p) <==> OnLattice(builtLayout, p) && 1 <= Dist(builtLayout, p) <= |markerNodes|
    {
      for i := 0 to active.Length
        invariant forall k :: 0 <= k < i ==> active[k]
      {
        active[i] := true;
      }
      forall p ensures Visible(p) <==> OnLattice(builtLayout, p) && 1 <= Dist(builtLayout, p) <= |markerNodes| {
        ShownIffFlagged(builtLayout, markerNodes, active[..], p);
      }
    }

    /** Show the groups up to the given radius, clamped to the number of groups, and move the
        marker there; a radius of 0 or less leaves everything hidden where it was. */
    method Show(pos: Vec3, radius: int)
      requires Valid()
      modifies this`position, active
      ensures forall i :: 0 <= i < active.Length ==> active[i] == (i < Min(radius, active.Length))
      ensures position == if radius <= 0 then old(position) else pos
      ensures forall p :: Visible(p) <==>
        OnLattice(builtLayout, p) && 1 <= Dist(builtLayout, p) <= Min(radius, |markerNodes|)
    {
      HideAll();
      if radius <= 0 {
        forall p ensures !(1 <= Dist(builtLayout, p) <= Min(radius, |markerNodes|)) { }
        return;
      }
      var r := radius;
      if r > active.Length {
        r := active.Length;
      }
      for i := 0 to r
        invariant forall k :: 0 <= k < active.Length ==> active[k] == (k < i)
      {
        active[i] := true;
      }
      position := pos;
      forall p ensures Visible(p) <==> OnLattice(builtLayout, p) && 1 <= Dist(builtLayout, p) <= Min(radius, |markerNodes|) {
        ShownDisk(builtLayout, markerNodes, active[..], r, p);
      }
    }

    /** Show only the group at the given radius, as written: the index radius - 1 is clamped to
        markerNodes.Length rather than Length - 1, so every radius above the group count ends in
        an out-of-range access after everything has been hidden. */
    method ShowOutline(pos: Vec3, radius: int) returns (outcome: Outcome)
      requires Valid()
      modifies this`position, active
      ensures outcome == if radius <= active.Length then Done else IndexOutOfRange(active.Length)
      ensures forall i :: 0 <= i < active.Length ==> active[i] == (i == radius - 1)
      ensures position == if 1 <= radius <= active.Length then pos else old(position)
      ensures forall p :: Visible(p) <==> 1 <= radius <= |markerNodes| && OnRing(builtLayout, p, radius)
    {
      HideAll();
      if radius <= 0 {
        return Done;
      }
      var index := radius - 1;
      if index > active.Length {
        index := active.Length;
      }
      if index >= active.Length {
        return IndexOutOfRange(index);
      }
      active[index] := true;
      position := pos;
      outcome := Done;
      forall p ensures Visible(p) <==> 1 <= radius <= |markerNodes| && OnRing(builtLayout, p, radius) {
        ShownOutline(builtLayout, markerNodes, active[..], index, p);
      }
    }

    /** Show only the group at the given radius, with the clamp to the last group that the
        comment "check if within limit" intends: a radius past the end shows the outermost ring.
        Only a marker without groups still fails, as index -1. */
    method ShowOutlineClamped(pos: Vec3, radius: int) returns (outcome: Outcome)
      requires Valid()
      modifies this`position, active
      ensures outcome == if radius >= 1 && active.Length == 0 then IndexOutOfRange(-1) else Done
      ensures forall i :: 0 <= i < active.Length ==> active[i] == (radius >= 1 && i == Min(radius, active.Length) - 1)
      ensures position == if radius >= 1 && active.Length >= 1 then pos else old(position)
      ensures forall p :: Visible(p) <==> radius >= 1 && |markerNodes| >= 1 && OnRing(builtLayout, p, Min(radius, |markerNodes|))
    {
      HideAll();
      if radius <= 0 {
        return Done;
      }
      var index := radius - 1;
      if index >= active.Length {
        index := active.Length - 1;
      }
      if index < 0 {
        return IndexOutOfRange(index);
      }
      active[index] := true;
      position := pos;
      outcome := Done;
      forall p ensures Visible(p) <==> radius >= 1 && |markerNodes| >= 1 && OnRing(builtLayout, p, Min(radius, |markerNodes|)) {
        ShownOutline(builtLayout, markerNodes, active[..], index, p);
      }
    }
  }

  /** CreateMarkerNodes: dispatch on the layout and hand the new groups to the marker. Each new
      group object is parented under the marker and starts active, as new engine objects do. */
  method CreateMarkerNodes(marker: RadiusMarker, markerLayout: Layout, markerRadius: nat)
    modifies marker
    ensures marker.Valid() && marker.builtLayout == markerLayout
    ensures |marker.markerNodes| == markerRadius
    ensures marker.children == old(marker.children) + marker.markerNodes
    ensures fresh(marker.active) && forall i :: 0 <= i < marker.active.Length ==> marker.active[i]
    ensures marker.prefab == old(marker.prefab) && marker.markerLayout == old(marker.markerLayout)
    ensures marker.markerSize == old(marker.markerSize) && marker.markerSpacing == old(marker.markerSpacing)
    ensures marker.markerRadius == old(marker.markerRadius) && marker.position == old(marker.position)
  {
    var nodes;
    match markerLayout {
      case Hex => nodes := RingGenerator.CreateHexNodes(markerRadius);
      case Square4 => nodes := RingGenerator.CreateSquare4Nodes(markerRadius);
      case Square8 => nodes := RingGenerator.CreateSquare8Nodes(markerRadius);
    }
    marker.markerNodes := nodes;
    marker.builtLayout := markerLayout;
    marker.children := marker.children + nodes;
    marker.active := new bool[|nodes|](_ => true);
  }

  /** UpdateMarker: destroy every child of the marker, then, given a prefab, store the
      configuration with the radius clamped to at least 1 and build that many groups. Without a
      prefab it stops after the destruction and markerNodes keeps its old groups. */
  method UpdateMarker(markerFab: Option<Prefab>, marker: RadiusMarker, markerLayout: Layout,
                      markerSpacing: real, markerSize: real, markerRadius: int)
    requires marker.Valid()
    modifies marker
    ensures marker.Valid()
    ensures marker.position == old(marker.position)
    ensures markerFab.None? ==>
      marker.children == [] &&
      marker.markerNodes == old(marker.markerNodes) && marker.active == old(marker.active) &&
      marker.prefab == old(marker.prefab) && marker.markerLayout == old(marker.markerLayout) &&
      marker.markerSpacing == old(marker.markerSpacing) && marker.markerSize == old(marker.markerSize) &&
      marker.markerRadius == old(marker.markerRadius) && marker.builtLayout == old(marker.builtLayout)
    ensures markerFab.Some? ==>
      marker.prefab == markerFab && marker.markerLayout == markerLayout && marker.builtLayout == markerLayout &&
      marker.markerSpacing == markerSpacing && marker.markerSize == markerSize &&
      marker.markerRadius == Max(1, markerRadius) &&
      |marker.markerNodes| == marker.markerRadius &&
      marker.children == marker.markerNodes &&
      fresh(marker.active) && forall i :: 0 <= i < marker.active.Length ==> marker.active[i]
  {
    marker.children := [];
    if markerFab.None? {
      return;
    }
    var radius := markerRadius;
    if radius < 1 {
      radius := 1;
    }
    marker.prefab := markerFab;
    marker.markerLayout := markerLayout;
    marker.markerSpacing := markerSpacing;
    marker.markerSize := markerSize;
    marker.markerRadius := radius;
    CreateMarkerNodes(marker, markerLayout, radius);
  }

  /** CreateMarker: given a prefab, a new marker object at the world origin configured like
      UpdateMarker configures one; without a prefab nothing is created. */
  method CreateMarker(markerFab: Option<Prefab>, markerLayout: Layout, markerSpacing: real,
                      markerSize: real, markerRadius: int) returns (marker: RadiusMarker?)
    ensures markerFab.None? <==> marker == null
    ensures marker != null ==>
      fresh(marker) && fresh(marker.active) && marker.Valid() &&
      marker.prefab == markerFab && marker.markerLayout == markerLayout && marker.builtLayout == markerLayout &&
      marker.markerSpacing == markerSpacing && marker.markerSize == markerSize &&
      marker.markerRadius == Max(1, markerRadius) &&
      |marker.markerNodes| == marker.markerRadius &&
      marker.children == marker.markerNodes &&
      marker.position == Vec3(0.0, 0.0, 0.0) &&
      forall i :: 0 <= i < marker.active.Length ==> marker.active[i]
  {
    if markerFab.None? {
      return null;
    }
    var radius := markerRadius;
    if radius < 1 {
      radius := 1;
    }
    marker := new RadiusMarker(Vec3(0.0, 0.0, 0.0));
    marker.prefab := markerFab;
    marker.markerLayout := markerLayout;
    marker.markerSpacing := markerSpacing;
    marker.markerSize := markerSize;
    marker.markerRadius := radius;
    CreateMarkerNodes(marker, markerLayout, radius);
  }

  /** A one-ring marker asked for the outline at radius 2: the as-written ShowOutline
      indexes markerNodes[1] and fails, leaving every node hidden. */
  method OutlineOverrunExample() returns (outcome: Outcome, shown: bool)
    ensures outcome == IndexOutOfRange(1) && !shown
  {
    var marker := CreateMarker(Some(Prefab(0)), Square4, 1.0, 1.0, 1);
    outcome := marker.ShowOutline(Vec3(3.0, 0.0, 4.0), 2);
    shown := marker.active[0];
  }

  /** The same call on the corrected ShowOutlineClamped shows the outermost (only) ring. */
  method OutlineClampedExample() returns (outcome: Outcome, shown: bool)
    ensures outcome == Done && shown
  {
    var marker := CreateMarker(Some(Prefab(0)), Square4, 1.0, 1.0, 1);
    outcome := marker.ShowOutlineClamped(Vec3(3.0, 0.0, 4.0), 2);
    shown := marker.active[0];
  }

  /** The inspector field markerLayout is edited on a built hex marker: hiding still works on the
      hex groups, and a rebuild with the new layout replaces them by square rings. */
  method LayoutEditExample() returns (hidden: bool, count: int, square: bool)
    ensures hidden && count == 3 && square
  {
    var marker := CreateMarker(Some(Prefab(0)), Hex, 1.0, 1.0, 2);
    marker.markerLayout := Square4;
    marker.HideAll();
    hidden := !marker.active[1];
    UpdateMarker(Some(Prefab(0)), marker, marker.markerLayout, 1.0, 1.0, 3);
    count := |marker.markerNodes|;
    assert IsRing(Square4, marker.markerNodes[0], 1);
    square := Point(1, 0) in marker.markerNodes[0];
  }
}
