/**
  The sidebar's controls (src/components/cv/CVSidebar.tsx): the 3D switch,
  which only asks the container for the opposite of the flag it was given,
  and the theme switch, which works on the browser state directly and keeps
  a local copy of the theme for its icon.
 */
module Sidebar {
  import opened Theme

  class CVSidebar {
    /** The sidebar's own `isDark` state, which picks the sun or moon icon. */
    var isDark: bool
    const host: Host

    /** First render: `useState(false)`. */
    constructor (host: Host)
      ensures this.host == host && !isDark
    {
      this.host := host;
      isDark := false;
    }

    /** The mount effect: the local copy takes the root's class as it is at that moment. */
    method MountEffect()
      modifies this`isDark
      ensures isDark == host.rootDark
    {
      isDark := host.rootDark;
    }

    /**
      `handleThemeClick`: reads the root's class, flips it, stores the new
      theme's name and updates the local copy.
     */
    method ThemeClick()
      modifies this`isDark, host
      ensures host.State() == Toggle(old(host.State()))
      ensures isDark == host.rootDark
    {
      var currentlyDark := host.rootDark;
      if currentlyDark {
        host.rootDark := false;
        host.stored := Some("light");
        isDark := false;
      } else {
        host.rootDark := true;
        host.stored := Some("dark");
        isDark := true;
      }
    }

    /** `handleIs3DClick`: the value it passes to `setIs3D` for the flag it was rendered with. */
    method Is3DClick(is3D: bool) returns (requested: bool)
      ensures requested != is3D
    {
      requested := !is3D;
    }
  }
}
