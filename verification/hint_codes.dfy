/**
 * The two-letter hint codes.
 *
 * The overlay labels its k-th visible element (0-based) with the letter of
 * the key list at position k div 26 followed by the letter at position
 * k mod 26: the second letter cycles fastest. `Decode` is the independent
 * inverse that shows every code names one position only.
 */
module HintCodes {
  import opened Wrappers

  /** The fixed alphabet, in the order codes are handed out. */
  const KeyList: string := "qwertasdfgzxcvyuiophjklbnm"

  /** Number of letters in `KeyList`. */
  const Width: nat := 26

  /** Number of distinct two-letter codes. */
  const Capacity: nat := 676

  /** No letter occurs twice in the alphabet. */
  predicate LettersDistinct() {
    forall i, j :: 0 <= i < j < |KeyList| ==> KeyList[i] != KeyList[j]
  }

  lemma KeyListShape()
    ensures |KeyList| == Width && Capacity == Width * Width
  {
  }

  lemma KeyListDistinct()
    ensures LettersDistinct()
  {
  }

  /** Position of `c` in `KeyList` at or after `from`. */
  function IndexFrom(c: char, from: nat): (r: Option<nat>)
    requires from <= |KeyList|
    ensures r.Some? ==> from <= r.value < |KeyList| && KeyList[r.value] == c
    ensures r.None? ==> forall i :: from <= i < |KeyList| ==> KeyList[i] != c
    decreases |KeyList| - from
  {
    if from == |KeyList| then None
    else if KeyList[from] == c then Some(from)
    else IndexFrom(c, from + 1)
  }

  /** Position of a letter in the alphabet, if it is one. */
  function IndexOf(c: char): (r: Option<nat>)
    ensures r.Some? ==> r.value < |KeyList| && KeyList[r.value] == c
    ensures r.None? ==> c !in KeyList
  {
    IndexFrom(c, 0)
  }

  /** A letter of the hint alphabet. */
  predicate IsLetter(ch: char) {
    IndexOf(ch).Some?
  }

  /** The code of the k-th visible element. */
  function Code(k: nat): (c: string)
    requires k < Capacity
    ensures |c| == 2
  {
    Split(k);
    [KeyList[k / Width], KeyList[k % Width]]
  }

  /** Both letters of a code come from the alphabet. */
  lemma CodeLetters(k: nat)
    requires k < Capacity
    ensures IsLetter(Code(k)[0]) && IsLetter(Code(k)[1])
  {
    Split(k);
    IndexOfKeyList(k / Width);
    IndexOfKeyList(k % Width);
  }

  /** Which position a two-letter code was handed to. */
  function Decode(c: string): (r: Option<nat>)
    ensures r.Some? ==> r.value < Capacity
  {
    KeyListShape();
    if |c| != 2 then None
    else
      match (IndexOf(c[0]), IndexOf(c[1]))
      case (Some(hi), Some(lo)) => Some(hi * Width + lo)
      case _ => None
  }

  /** Position k splits into its two counters. */
  lemma Split(k: nat)
    requires k < Capacity
    ensures k == (k / Width) * Width + k % Width
    ensures k / Width < Width && k % Width < Width
  {
  }

  /** Quotient and remainder by `Width` are determined by any split of k. */
  lemma DivModUnique(k: nat, q: nat, r: nat)
    requires k == q * Width + r && r < Width
    ensures k / Width == q && k % Width == r
  {
  }

  lemma IndexOfKeyList(i: nat)
    requires i < |KeyList|
    ensures IndexOf(KeyList[i]) == Some(i)
  {
    KeyListDistinct();
  }

  /** Round trip: a code decodes to the position it was handed to. */
  lemma DecodeCode(k: nat)
    requires k < Capacity
    ensures Decode(Code(k)) == Some(k)
  {
    KeyListShape();
    var c := Code(k);
    Split(k);
    IndexOfKeyList(k / Width);
    IndexOfKeyList(k % Width);
    assert IndexOf(c[0]) == Some(k / Width);
    assert IndexOf(c[1]) == Some(k % Width);
  }

  /** Codes are pairwise distinct. */
  lemma CodeInjective(i: nat, j: nat)
    requires i < Capacity && j < Capacity
    ensures Code(i) == Code(j) <==> i == j
  {
    if Code(i) == Code(j) {
      DecodeCode(i);
      DecodeCode(j);
    }
  }

  // ---------------------------------------------------------------------
  // The code as JavaScript actually computes it. Once the first counter
  // passes the end of the alphabet, the array read yields `undefined`, and
  // string concatenation turns it into the text "undefined".

  /** Entry i of the key list as string concatenation sees it. */
  function JsLetter(i: nat): (s: string)
    ensures i < |KeyList| ==> s == [KeyList[i]]
    ensures i >= |KeyList| ==> s == "undefined"
  {
    if i < |KeyList| then [KeyList[i]] else "undefined"
  }

  /** The label the source builds for the k-th visible element, with the
      first counter unbounded. */
  function CodeAsWritten(k: nat): (s: string)
    ensures k < Capacity ==> |s| == 2
    ensures k >= Capacity ==> |s| == 10
  {
    JsLetter(k / Width) + JsLetter(k % Width)
  }

  /** Up to the capacity the as-written code is the intended one. */
  lemma AsWrittenAgrees(k: nat)
    requires k < Capacity
    ensures CodeAsWritten(k) == Code(k)
  {
    KeyListShape();
  }

  /** Past the capacity the as-written codes are no longer two letters long,
      and the 677th and 703rd visible elements get the same code. */
  lemma AsWrittenCollides()
    ensures |CodeAsWritten(Capacity)| == 10
    ensures CodeAsWritten(Capacity) == CodeAsWritten(Capacity + Width) == "undefinedq"
  {
    KeyListShape();
    assert Capacity / Width == 26 && Capacity % Width == 0;
    assert (Capacity + Width) / Width == 27 && (Capacity + Width) % Width == 0;
  }
}
