/**
 * What a completed hint clicks.
 *
 * A link or a button is clicked itself. Anything else is searched for a
 * play button, first by one attribute selector and then by the other; when
 * neither finds one, the user is told the target is unsupported and nothing
 * is clicked.
 */
module Click {
  import opened Wrappers
  import opened Elements

  /** The three ends of click resolution. `Unsupported` is the alert. */
  datatype ClickOutcome = ClickSelf(id: nat) | ClickPlayButton(id: nat) | Unsupported

  /** Matches `button[data-ta-id="play-button"]`. */
  predicate IsTaPlayButton(n: Node) {
    n.tagName == "BUTTON" && n.dataTaId == "play-button"
  }

  /** Matches `button[data-button="play"]`. */
  predicate IsDataPlayButton(n: Node) {
    n.tagName == "BUTTON" && n.dataButton == "play"
  }

  /** Clicked directly: it has an `href` or is itself a button. */
  predicate DirectlyClickable(e: Element) {
    e.hasHref || e.tagName == "BUTTON"
  }

  /** `querySelector`: the first descendant, in document order, that satisfies `p`. */
  function FirstWhere(ds: seq<Node>, p: Node -> bool): (r: Option<nat>)
    ensures r.Some? ==> r.value < |ds| && p(ds[r.value]) && forall j :: 0 <= j < r.value ==> !p(ds[j])
    ensures r.None? ==> forall j :: 0 <= j < |ds| ==> !p(ds[j])
    decreases |ds|
  {
    if ds == [] then None
    else if p(ds[0]) then Some(0)
    else
      match FirstWhere(ds[1..], p)
      case None => None
      case Some(i) => Some(i + 1)
  }

  /** `click(element)`. */
  function Resolve(e: Element): (r: ClickOutcome)
    ensures r.ClickSelf? <==> DirectlyClickable(e)
    ensures r.ClickSelf? ==> r.id == e.id
    ensures r.ClickPlayButton? ==>
              exists i :: 0 <= i < |e.descendants| && e.descendants[i].id == r.id
                          && ((IsTaPlayButton(e.descendants[i])
                               && forall j :: 0 <= j < i ==> !IsTaPlayButton(e.descendants[j]))
                              || (IsDataPlayButton(e.descendants[i])
                                  && (forall j :: 0 <= j < |e.descendants| ==> !IsTaPlayButton(e.descendants[j]))
                                  && forall j :: 0 <= j < i ==> !IsDataPlayButton(e.descendants[j])))
    ensures r.Unsupported? <==>
              && !DirectlyClickable(e)
              && forall j :: 0 <= j < |e.descendants| ==>
                   !IsTaPlayButton(e.descendants[j]) && !IsDataPlayButton(e.descendants[j])
  {
    if DirectlyClickable(e) then ClickSelf(e.id)
    else
      match FirstWhere(e.descendants, IsTaPlayButton)
      case Some(i) => ClickPlayButton(e.descendants[i].id)
      case None =>
        match FirstWhere(e.descendants, IsDataPlayButton)
        case Some(i) => ClickPlayButton(e.descendants[i].id)
        case None => Unsupported
  }

  /** A target carrying both kinds of play button gets the `data-ta-id` one
      clicked, even when the `data-button` one comes first. */
  lemma TaSelectorWins(e: Element, i: nat)
    requires !DirectlyClickable(e)
    requires i < |e.descendants| && IsTaPlayButton(e.descendants[i])
    requires forall j :: 0 <= j < i ==> !IsTaPlayButton(e.descendants[j])
    ensures Resolve(e) == ClickPlayButton(e.descendants[i].id)
  {
    assert FirstWhere(e.descendants, IsTaPlayButton) == Some(i);
  }
}
