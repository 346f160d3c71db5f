/**
 * The hint overlay of `VimBind`, as pure transitions on an overlay state.
 *
 * Activation labels the visible candidates with two-letter codes; each
 * keystroke removes the hints whose next letter differs and strips one
 * letter from the others; a hint whose text runs out clicks its target and
 * closes the overlay.
 */
module Overlay {
  import opened Wrappers
  import opened Elements
  import opened HintCodes

  /** One on-screen label: the code letters still to type, and the element it clicks. */
  datatype Hint = Hint(text: string, target: Element)

  /** `isActive` plus the labels currently attached to the overlay, in insertion order. */
  datatype OverlayState = OverlayState(isActive: bool, hints: seq<Hint>)

  /** The state after `deactivate`, and before the first activation. */
  const Closed := OverlayState(false, [])

  /** All hint texts have the same length n >= 1 and no two are equal. */
  predicate WellFormed(hs: seq<Hint>, n: nat) {
    && n >= 1
    && (forall i :: 0 <= i < |hs| ==> |hs[i].text| == n)
    && (forall i, j :: 0 <= i < j < |hs| ==> hs[i].text != hs[j].text)
  }

  function Min(a: nat, b: nat): nat {
    if a <= b then a else b
  }

  lemma CodesDistinct(n: nat)
    requires n <= Capacity
    ensures forall i, j :: 0 <= i < j < n ==> Code(i) != Code(j)
  {
    forall i, j | 0 <= i < j < n
      ensures Code(i) != Code(j)
    {
      CodeInjective(i, j);
    }
  }

  /** The hints a scan builds: the k-th survivor is labelled with `Code(k)`.
      Only the first `Capacity` survivors are labelled (see `AssignHintsAsWritten`
      for what the unguarded counters do past that point). */
  function Hints(elems: seq<Element>, vp: Viewport): (r: seq<Hint>)
    ensures |r| == Min(|Survivors(elems, vp)|, Capacity)
    ensures forall k :: 0 <= k < |r| ==>
              r[k].target == Survivors(elems, vp)[k] && r[k].text == Code(k)
    ensures WellFormed(r, 2)
  {
    var surv := Survivors(elems, vp);
    var n := Min(|surv|, Capacity);
    CodesDistinct(n);
    seq(n, k requires 0 <= k < n => Hint(Code(k), surv[k]))
  }

  /** The scan loop as written: two counters, the second cycling fastest, and
      no bound on the first. Up to `Capacity` survivors it builds `Hints`. */
  method AssignHintsAsWritten(elems: seq<Element>, vp: Viewport) returns (hs: seq<Hint>)
    ensures |hs| == |Survivors(elems, vp)|
    ensures forall k :: 0 <= k < |hs| ==>
              hs[k].text == CodeAsWritten(k) && hs[k].target == Survivors(elems, vp)[k]
    ensures |Survivors(elems, vp)| <= Capacity ==> hs == Hints(elems, vp)
  {
    var firstKey: nat, secondKey: nat := 0, 0;
    hs := [];
    for i := 0 to |elems|
      invariant |hs| == |Survivors(elems[..i], vp)|
      invariant |hs| <= i
      invariant forall k :: 0 <= k < |hs| ==>
                  hs[k].text == CodeAsWritten(k) && hs[k].target == Survivors(elems[..i], vp)[k]
      invariant firstKey * Width + secondKey == |hs| && secondKey < Width
    {
      var e := elems[i];
      SurvivorsStep(elems, i, vp);
      if StyleHidden(e) {
        // skipped: no hint, counters unchanged
      } else if OffScreen(e.bounds, vp) {
        // skipped: no hint, counters unchanged
      } else {
        var code := JsLetter(firstKey) + JsLetter(secondKey);
        DivModUnique(|hs|, firstKey, secondKey);
        assert code == CodeAsWritten(|hs|);
        AppendHint(hs, Survivors(elems[..i], vp), Hint(code, e));
        hs := hs + [Hint(code, e)];
        secondKey := secondKey + 1;
        if secondKey > Width - 1 {
          secondKey := 0;
          firstKey := firstKey + 1;
        }
      }
    }
    assert elems[..|elems|] == elems;
    if |Survivors(elems, vp)| <= Capacity {
      AsWrittenMatchesHints(elems, vp, hs);
    }
  }

  /** Appending the next survivor's hint keeps the hint list in step with the survivors. */
  lemma AppendHint(hs: seq<Hint>, surv: seq<Element>, h: Hint)
    requires |hs| == |surv|
    requires forall k :: 0 <= k < |hs| ==> hs[k].text == CodeAsWritten(k) && hs[k].target == surv[k]
    requires h.text == CodeAsWritten(|hs|)
    ensures forall k :: 0 <= k < |hs| + 1 ==>
              (hs + [h])[k].text == CodeAsWritten(k) && (hs + [h])[k].target == (surv + [h.target])[k]
  {
    forall k | 0 <= k < |hs| + 1
      ensures (hs + [h])[k].text == CodeAsWritten(k) && (hs + [h])[k].target == (surv + [h.target])[k]
    {
      if k < |hs| {
        assert (hs + [h])[k] == hs[k] && (surv + [h.target])[k] == surv[k];
      } else {
        assert (hs + [h])[k] == h && (surv + [h.target])[k] == h.target;
      }
    }
  }

  lemma SurvivorsStep(elems: seq<Element>, i: nat, vp: Viewport)
    requires i < |elems|
    ensures Survivors(elems[..i + 1], vp)
              == Survivors(elems[..i], vp) + (if Visible(elems[i], vp) then [elems[i]] else [])
  {
    assert elems[..i + 1][..i] == elems[..i];
  }

  lemma AsWrittenMatchesHints(elems: seq<Element>, vp: Viewport, hs: seq<Hint>)
    requires |hs| == |Survivors(elems, vp)| <= Capacity
    requires forall k :: 0 <= k < |hs| ==>
               hs[k].text == CodeAsWritten(k) && hs[k].target == Survivors(elems, vp)[k]
    ensures hs == Hints(elems, vp)
  {
    var expected := Hints(elems, vp);
    forall k | 0 <= k < |hs|
      ensures hs[k] == expected[k]
    {
      AsWrittenAgrees(k);
    }
  }

  /** `activate`: with labels present it only removes them (and leaves
      `isActive` as it was); otherwise it scans and becomes active. */
  function Activate(s: OverlayState, elems: seq<Element>, vp: Viewport): (r: OverlayState)
    ensures s.hints != [] ==> r.hints == [] && r.isActive == s.isActive
    ensures s.hints == [] ==> r.isActive && WellFormed(r.hints, 2)
    ensures s.hints == [] ==> |r.hints| == Min(|Survivors(elems, vp)|, Capacity)
    ensures s.hints == [] ==> forall k :: 0 <= k < |r.hints| ==>
              r.hints[k].target == Survivors(elems, vp)[k]
  {
    if |s.hints| > 0 then OverlayState(s.isActive, [])
    else OverlayState(true, Hints(elems, vp))
  }

  /** `deactivate`: inactive, every label removed. */
  function Deactivate(s: OverlayState): (r: OverlayState)
    ensures !r.isActive && r.hints == []
  {
    Closed
  }

  /** A text whose first letter is `key`. */
  predicate StartsWith(text: string, key: char) {
    |text| > 0 && text[0] == key
  }

  /** The hints whose next letter is `key`, in order. */
  function Matching(hs: seq<Hint>, key: char): (r: seq<Hint>)
    ensures |r| <= |hs|
    ensures forall i :: 0 <= i < |r| ==> r[i] in hs && StartsWith(r[i].text, key)
    decreases |hs|
  {
    if hs == [] then []
    else if StartsWith(hs[0].text, key) then [hs[0]] + Matching(hs[1..], key)
    else Matching(hs[1..], key)
  }

  /** Every hint with one letter consumed, target kept. */
  function Strip(hs: seq<Hint>): (r: seq<Hint>)
    requires forall i :: 0 <= i < |hs| ==> |hs[i].text| > 0
    ensures |r| == |hs|
    ensures forall i :: 0 <= i < |r| ==>
              [hs[i].text[0]] + r[i].text == hs[i].text && r[i].target == hs[i].target
  {
    seq(|hs|, i requires 0 <= i < |hs| => Hint(hs[i].text[1..], hs[i].target))
  }

  /** What one pass of the keystroke loop ends with. */
  datatype Narrowed = Completed(target: Element) | Remaining(hints: seq<Hint>)

  /** The keystroke loop over the labels. */
  function Narrow(hs: seq<Hint>, key: char): (r: Narrowed)
    ensures r.Completed? <==> exists i :: 0 <= i < |hs| && hs[i].text == [key]
    ensures r.Completed? ==>
              exists i :: 0 <= i < |hs| && hs[i].text == [key] && r.target == hs[i].target
                          && forall j :: 0 <= j < i ==> hs[j].text != [key]
    ensures r.Remaining? ==> r.hints == Strip(Matching(hs, key))
    decreases |hs|
  {
    if hs == [] then Remaining([])
    else
      var h := hs[0];
      if !StartsWith(h.text, key) then
        var r := Narrow(hs[1..], key);
        assert h.text != [key];
        NarrowShift(hs, key, r);
        r
      else if |h.text| == 1 then
        assert h.text == [key];
        Completed(h.target)
      else
        match Narrow(hs[1..], key)
        case Completed(t) =>
          NarrowShift(hs, key, Completed(t));
          Completed(t)
        case Remaining(rest) =>
          assert h.text != [key];
          NarrowShift(hs, key, Remaining(rest));
          StripCons(h, Matching(hs[1..], key));
          Remaining([Hint(h.text[1..], h.target)] + rest)
  }

  lemma StripCons(h: Hint, m: seq<Hint>)
    requires |h.text| > 0 && forall i :: 0 <= i < |m| ==> |m[i].text| > 0
    ensures Strip([h] + m) == [Hint(h.text[1..], h.target)] + Strip(m)
  {
    assert forall i :: 0 < i <= |m| ==> ([h] + m)[i] == m[i - 1];
  }

  /** Moving the witnesses of the tail's contract to the whole list. */
  lemma NarrowShift(hs: seq<Hint>, key: char, r: Narrowed)
    requires hs != [] && hs[0].text != [key]
    requires r.Completed? <==> exists i :: 0 <= i < |hs| - 1 && hs[1..][i].text == [key]
    requires r.Completed? ==>
               exists i :: 0 <= i < |hs| - 1 && hs[1..][i].text == [key] && r.target == hs[1..][i].target
                           && forall j :: 0 <= j < i ==> hs[1..][j].text != [key]
    ensures r.Completed? <==> exists i :: 0 <= i < |hs| && hs[i].text == [key]
    ensures r.Completed? ==>
              exists i :: 0 <= i < |hs| && hs[i].text == [key] && r.target == hs[i].target
                          && forall j :: 0 <= j < i ==> hs[j].text != [key]
  {
    if exists i :: 0 <= i < |hs| && hs[i].text == [key] {
      var i :| 0 <= i < |hs| && hs[i].text == [key];
      assert hs[1..][i - 1].text == [key];
    }
    if r.Completed? {
      var i :| 0 <= i < |hs| - 1 && hs[1..][i].text == [key] && r.target == hs[1..][i].target
               && forall j :: 0 <= j < i ==> hs[1..][j].text != [key];
      assert hs[i + 1].text == [key];
      forall j | 0 <= j < i + 1
        ensures hs[j].text != [key]
      {
        if j > 0 {
          assert hs[j] == hs[1..][j - 1];
        }
      }
    }
  }

  /** The result of one keystroke: the new state, and the element clicked, if any. */
  datatype PressResult = PressResult(state: OverlayState, clicked: Option<Element>)

  /** `listenToKeys` for one key. */
  function Press(s: OverlayState, key: char): (r: PressResult)
    ensures !s.isActive ==> r == PressResult(s, None)
    ensures s.isActive && s.hints == [] ==> r == PressResult(Closed, None)
    ensures r.clicked.Some? ==>
              && s.isActive && r.state == Closed
              && exists i :: 0 <= i < |s.hints| && s.hints[i].text == [key]
                             && r.clicked.value == s.hints[i].target
                             && forall j :: 0 <= j < i ==> s.hints[j].text != [key]
    ensures s.isActive && (exists i :: 0 <= i < |s.hints| && s.hints[i].text == [key]) ==>
              r.clicked.Some?
    ensures s.isActive && r.clicked.None? ==>
              if Matching(s.hints, key) == [] then r.state == Closed
              else r.state == OverlayState(true, Strip(Matching(s.hints, key)))
  {
    if !s.isActive then PressResult(s, None)
    else if |s.hints| == 0 then PressResult(Deactivate(s), None)
    else
      match Narrow(s.hints, key)
      case Completed(t) => PressResult(Deactivate(s), Some(t))
      case Remaining(rest) =>
        if |rest| == 0 then PressResult(Deactivate(s), None)
        else PressResult(OverlayState(true, rest), None)
  }

  /** Keys typed one after another, stopping at the first click. */
  function TypeKeys(s: OverlayState, keys: string): PressResult
    decreases |keys|
  {
    if keys == [] then PressResult(s, None)
    else
      var r := Press(s, keys[0]);
      if r.clicked.Some? then r else TypeKeys(r.state, keys[1..])
  }

  /** A hint that matches the key survives narrowing. */
  lemma {:induction false} MatchingKeeps(hs: seq<Hint>, key: char, i: nat)
    requires i < |hs| && StartsWith(hs[i].text, key)
    ensures exists m :: 0 <= m < |Matching(hs, key)| && Matching(hs, key)[m] == hs[i]
    decreases |hs|
  {
    if i > 0 {
      MatchingKeeps(hs[1..], key, i - 1);
      var m :| 0 <= m < |Matching(hs[1..], key)| && Matching(hs[1..], key)[m] == hs[1..][i - 1];
      if StartsWith(hs[0].text, key) {
        assert Matching(hs, key)[m + 1] == hs[i];
      } else {
        assert Matching(hs, key)[m] == hs[i];
      }
    } else {
      assert Matching(hs, key)[0] == hs[0];
    }
  }

  /** Narrowing keeps texts distinct: it only drops hints. */
  lemma {:induction false} MatchingDistinct(hs: seq<Hint>, key: char)
    requires forall i, j :: 0 <= i < j < |hs| ==> hs[i].text != hs[j].text
    ensures forall i, j :: 0 <= i < j < |Matching(hs, key)| ==>
              Matching(hs, key)[i].text != Matching(hs, key)[j].text
    decreases |hs|
  {
    if hs != [] {
      var tail := hs[1..];
      MatchingDistinct(tail, key);
      if StartsWith(hs[0].text, key) {
        var m := Matching(hs, key);
        var mt := Matching(tail, key);
        assert m == [hs[0]] + mt;
        forall i, j | 0 <= i < j < |m|
          ensures m[i].text != m[j].text
        {
          if i == 0 {
            assert m[j] == mt[j - 1];
            assert mt[j - 1] in tail;
            var t :| 0 <= t < |tail| && tail[t] == mt[j - 1];
            assert hs[t + 1] == mt[j - 1];
          } else {
            assert m[i] == mt[i - 1] && m[j] == mt[j - 1];
          }
        }
      }
    }
  }

  /** One keystroke that completes nothing turns a well-formed list of
      length-n codes into a well-formed list of length-(n-1) codes. */
  lemma StripWellFormed(hs: seq<Hint>, key: char, n: nat)
    requires WellFormed(hs, n) && n >= 2
    ensures WellFormed(Strip(Matching(hs, key)), n - 1)
  {
    MatchingDistinct(hs, key);
    var m := Matching(hs, key);
    var r := Strip(m);
    forall i | 0 <= i < |m|
      ensures |m[i].text| == n
    {
      var t :| 0 <= t < |hs| && hs[t] == m[i];
    }
    forall i, j | 0 <= i < j < |r|
      ensures r[i].text != r[j].text
    {
      assert [m[i].text[0]] + r[i].text == m[i].text;
      assert [m[j].text[0]] + r[j].text == m[j].text;
    }
  }

  /** Typing the whole code of a label clicks that label's target and closes
      the overlay, whatever the other (distinct, equal-length) labels are. */
  lemma {:induction false} TypingCodeSelects(hs: seq<Hint>, n: nat, i: nat)
    requires WellFormed(hs, n) && i < |hs|
    ensures TypeKeys(OverlayState(true, hs), hs[i].text) == PressResult(Closed, Some(hs[i].target))
    decreases n
  {
    var s := OverlayState(true, hs);
    var text := hs[i].text;
    var key := text[0];
    if n == 1 {
      assert text == [key];
      var r := Press(s, key);
      var j :| 0 <= j < |hs| && hs[j].text == [key] && r.clicked.value == hs[j].target
               && forall j' :: 0 <= j' < j ==> hs[j'].text != [key];
      assert j == i;
      assert text[1..] == [];
    } else {
      forall j | 0 <= j < |hs|
        ensures hs[j].text != [key]
      {
      }
      MatchingKeeps(hs, key, i);
      var m := Matching(hs, key);
      var p :| 0 <= p < |m| && m[p] == hs[i];
      var rest := Strip(m);
      assert Press(s, key) == PressResult(OverlayState(true, rest), None);
      StripWellFormed(hs, key, n);
      assert rest[p].text == text[1..] && rest[p].target == hs[i].target by {
        assert [m[p].text[0]] + rest[p].text == m[p].text;
      }
      TypingCodeSelects(rest, n - 1, p);
    }
  }

  /** End to end: after activation, typing the code of the k-th visible
      candidate clicks exactly that candidate and closes the overlay. */
  lemma ActivateThenTypeCode(elems: seq<Element>, vp: Viewport, k: nat)
    requires k < Min(|Survivors(elems, vp)|, Capacity)
    ensures TypeKeys(Activate(Closed, elems, vp), Code(k))
              == PressResult(Closed, Some(Survivors(elems, vp)[k]))
  {
    var hs := Hints(elems, vp);
    TypingCodeSelects(hs, 2, k);
  }

  /** With distinct labels, at most one label completes on a keystroke. */
  lemma UniqueCompletion(hs: seq<Hint>, n: nat, key: char, i: nat, j: nat)
    requires WellFormed(hs, n) && i < |hs| && j < |hs|
    requires hs[i].text == [key] && hs[j].text == [key]
    ensures i == j
  {
  }

  /** A key that no label starts with closes the overlay without a click. */
  lemma NoMatchCloses(s: OverlayState, key: char)
    requires s.isActive
    requires forall i :: 0 <= i < |s.hints| ==> !StartsWith(s.hints[i].text, key)
    ensures Press(s, key) == PressResult(Closed, None)
  {
    MatchingNone(s.hints, key);
  }

  lemma {:induction false} MatchingNone(hs: seq<Hint>, key: char)
    requires forall i :: 0 <= i < |hs| ==> !StartsWith(hs[i].text, key)
    ensures Matching(hs, key) == []
    decreases |hs|
  {
    if hs != [] {
      MatchingNone(hs[1..], key);
    }
  }

  /** Narrowing an active, well-formed state either closes it or leaves an
      active, well-formed state with one letter fewer per label. */
  lemma PressPreservesWellFormed(s: OverlayState, key: char, n: nat)
    requires s.isActive && WellFormed(s.hints, n)
    ensures Press(s, key).state.isActive ==>
              n >= 2 && Press(s, key).state.hints != [] && WellFormed(Press(s, key).state.hints, n - 1)
  {
    var r := Press(s, key);
    if r.state.isActive {
      var m := Matching(s.hints, key);
      assert m != [];
      var t :| 0 <= t < |s.hints| && s.hints[t] == m[0];
      if n >= 2 {
        StripWellFormed(s.hints, key, n);
      }
    }
  }

  /** `deactivate` is idempotent, so the cancel key may be pressed at any time. */
  lemma DeactivateIdempotent(s: OverlayState)
    ensures Deactivate(Deactivate(s)) == Deactivate(s) == Closed
  {
  }
}
