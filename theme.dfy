/**
  The theme preference shared by the container and the sidebar
  (src/components/cv/CVContainer.tsx, src/components/cv/CVSidebar.tsx).

  Two pieces of browser state stand behind it: whether the document root
  carries the class `dark`, and the entry `theme` of local storage. Both
  components read and write them directly.
 */
module Theme {

  datatype Option<T> = None | Some(value: T)

  /** The browser state the theme lives in, as a value. */
  datatype HostState = HostState(rootDark: bool, stored: Option<string>)

  /**
    The browser itself: `document.documentElement.classList.contains('dark')`
    is rootDark, `localStorage.getItem('theme')` is stored (None for null).
   */
  class Host {
    var rootDark: bool
    var stored: Option<string>

    constructor (rootDark: bool, stored: Option<string>)
      ensures this.rootDark == rootDark && this.stored == stored
    {
      this.rootDark := rootDark;
      this.stored := stored;
    }

    function State(): HostState
      reads this
    {
      HostState(rootDark, stored)
    }
  }

  /** The value written under `theme` for a theme. */
  function ThemeName(dark: bool): string {
    if dark then "dark" else "light"
  }

  /** `saved === 'dark'`: only the exact string "dark" selects the dark theme. */
  predicate StoredIsDark(stored: Option<string>) {
    stored == Some("dark")
  }

  /** The stored entry names the theme the root shows. */
  predicate Consistent(h: HostState) {
    h.stored == Some(ThemeName(h.rootDark))
  }

  /**
    A theme toggle: it reads the root's class (not any component's copy),
    flips it and stores the name of the new theme.
   */
  function Toggle(h: HostState): HostState {
    var dark := !h.rootDark;
    HostState(dark, Some(ThemeName(dark)))
  }

  /** A toggle flips the root, and afterwards the stored entry names the new theme. */
  lemma ToggleFlips(h: HostState)
    ensures Toggle(h).rootDark == !h.rootDark
    ensures Consistent(Toggle(h))
    ensures StoredIsDark(Toggle(h).stored) <==> Toggle(h).rootDark
  {
  }

  /** Two toggles restore the root; they restore the stored entry too when it was consistent. */
  lemma ToggleTwice(h: HostState)
    ensures Toggle(Toggle(h)).rootDark == h.rootDark
    ensures Consistent(h) ==> Toggle(Toggle(h)) == h
  {
  }

  /** A toggle's result does not depend on what was stored before. */
  lemma ToggleIgnoresStored(h: HostState, stored: Option<string>)
    ensures Toggle(HostState(h.rootDark, stored)) == Toggle(h)
  {
  }

  /**
    The container's mount effect on the browser: the root's class is set
    from the stored entry, which stays as it was.
   */
  function ApplyStored(h: HostState): HostState {
    HostState(StoredIsDark(h.stored), h.stored)
  }

  /**
    After the mount effect the root is dark exactly when "dark" is stored; the
    state is consistent when "dark" or "light" is stored. A missing or any
    other entry leaves the light theme with the entry as it was.
   */
  lemma ApplyStoredProperties(h: HostState)
    ensures ApplyStored(h).rootDark <==> h.stored == Some("dark")
    ensures ApplyStored(h).stored == h.stored
    ensures Consistent(ApplyStored(h)) <==> h.stored == Some("dark") || h.stored == Some("light")
    ensures ApplyStored(ApplyStored(h)) == ApplyStored(h)
  {
  }

  /** A reload after a toggle shows the toggled theme: the mount effect reproduces the root from storage. */
  lemma ReloadKeepsToggledTheme(h: HostState)
    ensures ApplyStored(Toggle(h)) == Toggle(h)
  {
  }
}
