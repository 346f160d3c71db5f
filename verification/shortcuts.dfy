/**
 * The global key bindings and the guard `registerBind` wraps around them.
 *
 * Every binding the extension registers is a descriptor (key name and the
 * three modifier flags) and an action with its argument. The host calls the
 * wrapped callback on a matching keystroke; the wrapper runs the action only
 * while the hint overlay is inactive.
 */
module Shortcuts {
  import opened Wrappers

  /** What a binding does when it fires, with the argument it was registered with. */
  datatype Action =
    | ClickSelector(selector: string)
    | AppScroll(step: int)
    | AppScrollTop
    | AppScrollBottom
    | OpenSearchPage
    | SkipBack
    | SkipForward
    | IncreaseVolume
    | DecreaseVolume
    | GoToPlaylist(name: string)
    | GoToAlbumOfCurrentTrack
    | FocusPlaylist
    | ActivateHints

  /** The `{key, ctrl, shift, alt}` record handed to the host. */
  datatype Descriptor = Descriptor(key: string, ctrl: bool, shift: bool, alt: bool)

  datatype Binding = Binding(descriptor: Descriptor, action: Action)

  const ScrollStep: int := 300
  const PageStep: int := 1000

  /** A binding with no modifiers, or with shift only. */
  function Plain(key: string, a: Action): Binding {
    Binding(Descriptor(key, false, false, false), a)
  }

  function Shifted(key: string, a: Action): Binding {
    Binding(Descriptor(key, false, true, false), a)
  }

  /** Every binding, in registration order. */
  const Table: seq<Binding> := [
    Plain("P", ClickSelector(".main-topBar-button[aria-label='Go back']")),
    Plain("I", ClickSelector(".main-topBar-button[aria-label='Go forward']")),
    Plain("J", AppScroll(ScrollStep)),
    Plain("D", AppScroll(PageStep)),
    Plain("K", AppScroll(-ScrollStep)),
    Plain("U", AppScroll(-PageStep)),
    Plain("G", AppScrollTop),
    Shifted("G", AppScrollBottom),
    Plain("/", OpenSearchPage),
    Shifted("F", ClickSelector(".main-topBar-button[title='Full App Display']")),
    Shifted("H", SkipBack),
    Shifted("L", SkipForward),
    Shifted("ARROW_RIGHT", ClickSelector(".main-skipForwardButton-button")),
    Shifted("ARROW_LEFT", ClickSelector(".main-skipBackButton-button")),
    Shifted("ARROW_UP", IncreaseVolume),
    Shifted("ARROW_DOWN", DecreaseVolume),
    Plain("M", ClickSelector(".main-navBar-navBarItem[data-id='/'] a")),
    Shifted("M", ClickSelector(".main-navBar-navBarItem[data-id='/collection'] a")),
    Plain("Z", GoToPlaylist("\U{2F49}")),
    Shifted("Z", GoToPlaylist("\U{1F317}")),
    Shifted("Q", GoToAlbumOfCurrentTrack),
    Plain("W", FocusPlaylist),
    Plain(".", ActivateHints),
    Shifted(":", ActivateHints),
    Plain("F", ActivateHints)
  ]

  /** No two bindings share a descriptor, so no binding shadows another. */
  predicate DescriptorsUnique(t: seq<Binding>) {
    forall i, j :: 0 <= i < j < |t| ==> t[i].descriptor != t[j].descriptor
  }

  /** Every binding differs from every other in its key or its shift flag. */
  lemma TableDescriptorsUnique()
    ensures DescriptorsUnique(Table)
  {
    forall i, j | 0 <= i < j < |Table|
      ensures Table[i].descriptor.key != Table[j].descriptor.key
              || Table[i].descriptor.shift != Table[j].descriptor.shift
    {
    }
  }

  /** The binding registered for a descriptor, if any. */
  function Lookup(t: seq<Binding>, d: Descriptor): (r: Option<Action>)
    ensures r.Some? <==> exists i :: 0 <= i < |t| && t[i].descriptor == d
    ensures r.Some? ==> exists i :: 0 <= i < |t| && t[i].descriptor == d && t[i].action == r.value
    decreases |t|
  {
    if t == [] then None
    else if t[0].descriptor == d then Some(t[0].action)
    else
      var r := Lookup(t[1..], d);
      assert forall i :: 1 <= i < |t| ==> t[i] == t[1..][i - 1];
      r
  }

  /** A keystroke with descriptor `d`, seen through the `registerBind` wrapper:
      the action that runs, if any. */
  function Fire(overlayActive: bool, d: Descriptor): (r: Option<Action>)
    ensures r.Some? <==> !overlayActive && exists i :: 0 <= i < |Table| && Table[i].descriptor == d
    ensures r.Some? ==> forall i :: 0 <= i < |Table| && Table[i].descriptor == d ==> Table[i].action == r.value
  {
    TableDescriptorsUnique();
    if overlayActive then None else Lookup(Table, d)
  }

  /** The descriptors of `.`, `shift+:` and `F`, the keys that open the hint overlay. */
  const ActivationDescriptors: set<Descriptor> := {
    Descriptor(".", false, false, false),
    Descriptor(":", false, true, false),
    Descriptor("F", false, false, false)
  }

  /** Only the activation descriptors open the hint overlay ... */
  lemma ActivatesOnlyOn(d: Descriptor)
    ensures Fire(false, d) == Some(ActivateHints) ==> d in ActivationDescriptors
  {
    if Fire(false, d) == Some(ActivateHints) {
      var i :| 0 <= i < |Table| && Table[i].descriptor == d;
      OnlyLastThreeActivate();
      assert i == 22 || i == 23 || i == 24;
    }
  }

  /** ... and each of them does, while the overlay is inactive. */
  lemma ActivatorsFire(d: Descriptor)
    requires d in ActivationDescriptors
    ensures Fire(false, d) == Some(ActivateHints)
  {
    assert Table[22] == Plain(".", ActivateHints);
    assert Table[23] == Shifted(":", ActivateHints);
    assert Table[24] == Plain("F", ActivateHints);
  }

  /** The activating bindings are the last three registered. */
  lemma OnlyLastThreeActivate()
    ensures |Table| == 25
    ensures forall i :: 0 <= i < 22 ==> Table[i].action != ActivateHints
  {
  }
}
