/**
  The document viewer's container (src/components/cv/CVContainer.tsx): the
  zoom factor, the 3D flag, a copy of the theme and the pointer offsets the
  tilt is computed from, with the handlers that change them.
 */
module Container {
  import opened Theme
  import Toolbar
  import Sidebar

  /** `useState(0.85)`, in hundredths. */
  const DefaultZoom: int := 85

  // ---------------------------------------------------------------------------
  // The tilt: each offset is mapped from [-0.5, 0.5] onto a pair of angles.

  /** An output range of `useTransform`, in degrees. */
  datatype Range = Range(from: real, to: real)

  /** The output range selected for the rotation about the horizontal axis, driven by the vertical offset. */
  function RotateXRange(is3D: bool): Range {
    if is3D then Range(5.0, -5.0) else Range(0.0, 0.0)
  }

  /** The output range selected for the rotation about the vertical axis, driven by the horizontal offset. */
  function RotateYRange(is3D: bool): Range {
    if is3D then Range(-5.0, 5.0) else Range(0.0, 0.0)
  }

  /** Linear interpolation of an offset in [-0.5, 0.5] onto r, clamped at both ends of the input range. */
  function Interpolate(r: Range, v: real): real {
    var c := if v < -0.5 then -0.5 else if v > 0.5 then 0.5 else v;
    r.from + (r.to - r.from) * (c + 0.5)
  }

  /** With the 3D view off both ranges are 0deg to 0deg, so no offset tilts the document. */
  lemma FlatViewDoesNotRotate(vx: real, vy: real)
    ensures Interpolate(RotateXRange(false), vy) == 0.0
    ensures Interpolate(RotateYRange(false), vx) == 0.0
  {
  }

  /** Any tilt stays within 5 degrees either way, and the centred pointer gives none. */
  lemma TiltBounded(is3D: bool, v: real)
    ensures -5.0 <= Interpolate(RotateXRange(is3D), v) <= 5.0
    ensures -5.0 <= Interpolate(RotateYRange(is3D), v) <= 5.0
    ensures Interpolate(RotateXRange(is3D), 0.0) == 0.0
    ensures Interpolate(RotateYRange(is3D), 0.0) == 0.0
  {
  }

  /** In 3D, moving the pointer right turns the document one way, moving it down tips it the other way. */
  lemma TiltMonotone(v1: real, v2: real)
    requires v1 <= v2
    ensures Interpolate(RotateYRange(true), v1) <= Interpolate(RotateYRange(true), v2)
    ensures Interpolate(RotateXRange(true), v1) >= Interpolate(RotateXRange(true), v2)
  {
  }

  /** The first render's theme copy: the stored entry when a window exists, light otherwise. */
  predicate InitialIsDark(hasWindow: bool, saved: Option<string>) {
    hasWindow && StoredIsDark(saved)
  }

  class CVContainer {
    /** The zoom factor in hundredths. */
    var zoom: int
    var is3D: bool
    /** The container's own `isDark` state. */
    var isDark: bool
    /** The motion values `x` and `y`: the pointer's offset from the centre, as fractions of the size. */
    var x: real
    var y: real
    const host: Host

    /** The zoom stays within the toolbar's range. */
    ghost predicate Valid()
      reads this
    {
      Toolbar.InRange(zoom)
    }

    /** First render: the initial `useState` and `useMotionValue` values. */
    constructor (host: Host, hasWindow: bool)
      ensures Valid() && this.host == host
      ensures zoom == DefaultZoom && !is3D && x == 0.0 && y == 0.0
      ensures isDark == InitialIsDark(hasWindow, host.stored)
    {
      this.host := host;
      zoom := DefaultZoom;
      is3D := false;
      isDark := hasWindow && host.stored == Some("dark");
      x, y := 0.0, 0.0;
    }

    /** The mount effect: the root's class and the theme copy are set from the stored entry. */
    method MountEffect()
      requires Valid()
      modifies this`isDark, host`rootDark
      ensures Valid()
      ensures host.State() == ApplyStored(old(host.State()))
      ensures isDark == host.rootDark
    {
      var savedTheme := host.stored;
      var shouldBeDark := savedTheme == Some("dark");
      isDark := shouldBeDark;
      if shouldBeDark {
        host.rootDark := true;
      } else {
        host.rootDark := false;
      }
    }

    /** `handleSetIs3D`. */
    method SetIs3D(val: bool)
      requires Valid()
      modifies this`is3D
      ensures Valid() && is3D == val
    {
      is3D := val;
    }

    /**
      `handleMouseMove`: with the 3D view on and the document mounted, the
      offsets take the pointer's position (computed by the browser, here a
      parameter); otherwise nothing changes.
     */
    method MouseMove(mounted: bool, offsetX: real, offsetY: real)
      requires Valid()
      modifies this`x, this`y
      ensures Valid()
      ensures if is3D && mounted then x == offsetX && y == offsetY else x == old(x) && y == old(y)
    {
      if !is3D || !mounted {
        return;
      }
      x := offsetX;
      y := offsetY;
    }

    /** `handleMouseLeave`: both offsets go back to the centre. */
    method MouseLeave()
      requires Valid()
      modifies this`x, this`y
      ensures Valid() && x == 0.0 && y == 0.0
    {
      x := 0.0;
      y := 0.0;
    }

    /** `toggleTheme`: defined by the container but handed to no component. */
    method ToggleTheme()
      requires Valid()
      modifies this`isDark, host
      ensures Valid()
      ensures host.State() == Toggle(old(host.State()))
      ensures isDark == host.rootDark
    {
      var currentlyDark := host.rootDark;
      var newTheme := !currentlyDark;
      if newTheme {
        host.rootDark := true;
      } else {
        host.rootDark := false;
      }
      host.stored := Some(if newTheme then "dark" else "light");
      isDark := newTheme;
    }

    /** `handleReset`: default zoom, flat view, centred offsets; the theme is not touched. */
    method Reset()
      modifies this`zoom, this`is3D, this`x, this`y
      ensures Valid()
      ensures zoom == DefaultZoom && !is3D && x == 0.0 && y == 0.0
    {
      zoom := DefaultZoom;
      is3D := false;
      x := 0.0;
      y := 0.0;
    }

    /** The toolbar's zoom-out button, through `setZoom`. */
    method ZoomOutClick()
      requires Valid()
      modifies this`zoom
      ensures Valid() && zoom == Toolbar.ZoomOut(old(zoom))
    {
      zoom := Toolbar.ZoomOut(zoom);
    }

    /** The toolbar's zoom-in button, through `setZoom`. */
    method ZoomInClick()
      requires Valid()
      modifies this`zoom
      ensures Valid() && zoom == Toolbar.ZoomIn(old(zoom))
    {
      zoom := Toolbar.ZoomIn(zoom);
    }

    /** The sidebar's 3D button, wired to `handleSetIs3D` with the container's flag. */
    method Sidebar3DClick(sidebar: Sidebar.CVSidebar)
      requires Valid()
      modifies this`is3D
      ensures Valid() && is3D == !old(is3D)
    {
      var requested := sidebar.Is3DClick(is3D);
      SetIs3D(requested);
    }
  }

  /**
    A page load in the browser: first render, then the mount effects, the
    sidebar's before the container's (React runs a child's effects before
    its parent's). The sidebar's copy therefore shows the root's class as it
    was before the stored theme was applied.
   */
  method PageLoad(rootDark: bool, stored: Option<string>)
    returns (host: Host, container: CVContainer, sidebar: Sidebar.CVSidebar)
    ensures fresh(host) && fresh(container) && fresh(sidebar)
    ensures container.host == host && sidebar.host == host
    ensures host.State() == ApplyStored(HostState(rootDark, stored))
    ensures container.Valid() && container.zoom == DefaultZoom && !container.is3D
    ensures container.x == 0.0 && container.y == 0.0
    ensures container.isDark == host.rootDark
    ensures sidebar.isDark == rootDark
  {
    host := new Host(rootDark, stored);
    container := new CVContainer(host, true);
    sidebar := new Sidebar.CVSidebar(host);
    sidebar.MountEffect();
    container.MountEffect();
  }
}
