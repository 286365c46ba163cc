/** The inside of quoted literals, character by character. */
module Literals {
  import opened Text

  /** One character of a literal as it is written: plain, or behind a backslash. */
  datatype LitChar = Plain(c: char) | Slashed(c: char)

  function ShowChar(x: LitChar): string {
    match x
    case Plain(c) => [c]
    case Slashed(c) => ['\\', c]
  }

  function ShowInside(xs: seq<LitChar>): string {
    if xs == [] then "" else ShowChar(xs[0]) + ShowInside(xs[1..])
  }

  /** Neither the quote nor a backslash stands there plain. */
  predicate InsideOk(xs: seq<LitChar>, quote: char) {
    forall k :: 0 <= k < |xs| ==> xs[k].Plain? ==> xs[k].c != quote && xs[k].c != '\\'
  }

  lemma InsideParts(xs: seq<LitChar>, tail: string)
    requires xs != []
    ensures ShowInside(xs) + tail == ShowChar(xs[0]) + (ShowInside(xs[1..]) + tail)
    ensures |ShowInside(xs)| == |ShowChar(xs[0])| + |ShowInside(xs[1..])|
  {
    Associate(ShowChar(xs[0]), ShowInside(xs[1..]), tail);
  }

  lemma ConsInside(x: LitChar, xs: seq<LitChar>, quote: char)
    requires InsideOk(xs, quote) && (x.Plain? ==> x.c != quote && x.c != '\\')
    ensures InsideOk([x] + xs, quote)
    ensures ShowInside([x] + xs) + [quote] == ShowChar(x) + (ShowInside(xs) + [quote])
  {
    InsideParts([x] + xs, [quote]);
    assert ([x] + xs)[1..] == xs;
  }
}
