/** Finding the `$info = [ ... ]` array in a PHP file: the string-aware bracket scan. */
module PhpScanner {
  import opened Names
  import opened Text

  predicate IsQuote(c: char) {
    c == '\'' || c == '"'
  }

  function SkipWhitespace(t: string, i: nat): (j: nat)
    requires i <= |t|
    ensures i <= j <= |t|
    ensures forall k :: i <= k < j ==> IsWhitespace(t[k])
    ensures j < |t| ==> !IsWhitespace(t[j])
  {
    RunEnd(t, i, IsWhitespace)
  }

  // ----- the start of the array -----

  /** `$info`, white space, `=`, white space, `[` at position `i`: the position of the bracket. */
  function InfoAt(t: string, i: nat): (r: Option<nat>)
    ensures r.Some? ==> i < r.value < |t| && t[r.value] == '['
  {
    if !At(t, i, "$info") then None else
      var j := SkipWhitespace(t, i + 5);
      if j >= |t| || t[j] != '=' then None else
        var k := SkipWhitespace(t, j + 1);
        if k < |t| && t[k] == '[' then Some(k) else None
  }

  /** The bracket of the first match at or after `i`. */
  function FindInfo(t: string, i: nat): (r: Option<nat>)
    ensures r.Some? ==> i < r.value < |t| && t[r.value] == '['
    decreases |t| - i
  {
    if i >= |t| then None
    else if InfoAt(t, i).Some? then InfoAt(t, i)
    else FindInfo(t, i + 1)
  }

  // ----- the end of the array -----

  datatype Mode = Outside | InString(quote: char) | Escaped(quote: char)

  /** How one character changes the scanner's string mode. */
  function StepMode(m: Mode, c: char): Mode {
    match m
    case Escaped(q) => InString(q)
    case InString(q) => if c == '\\' then Escaped(q) else if c == q then Outside else m
    case Outside => if IsQuote(c) then InString(c) else Outside
  }

  function StepDepth(m: Mode, depth: int, c: char): int {
    if m != Outside then depth
    else if c == '[' then depth + 1
    else if c == ']' then depth - 1
    else depth
  }

  /** The mode of a scan that begins at `start`, before it reads character `i`. */
  ghost function ScanMode(t: string, start: nat, i: nat): Mode
    requires start <= i <= |t|
  {
    if i == start then Outside else StepMode(ScanMode(t, start, i - 1), t[i - 1])
  }

  /** The position of the bracket that brings the depth back to zero. */
  function ScanEnd(t: string, i: nat, mode: Mode, depth: int): (r: Option<nat>)
    ensures r.Some? ==> i <= r.value < |t| && t[r.value] == ']'
    decreases |t| - i
  {
    if i >= |t| then None
    else if mode == Outside && t[i] == ']' && depth - 1 == 0 then Some(i)
    else ScanEnd(t, i + 1, StepMode(mode, t[i]), StepDepth(mode, depth, t[i]))
  }

  /** The scanner's loop over the characters from `start` on. */
  method ScanArray(t: string, start: nat) returns (arrayEnd: Option<nat>)
    requires start <= |t|
    ensures arrayEnd == ScanEnd(t, start, Outside, 0)
  {
    var depth: int := 0;
    var inString, stringChar, escape := false, '\0', false;
    var i := start;
    while i < |t|
      invariant start <= i <= |t|
      invariant ScanMode(t, start, i)
                == if escape then Escaped(stringChar) else if inString then InString(stringChar) else Outside
      invariant escape ==> inString
      invariant ScanEnd(t, start, Outside, 0) == ScanEnd(t, i, ScanMode(t, start, i), depth)
    {
      var c := t[i];
      if escape {
        escape := false;
      } else if inString {
        if c == '\\' {
          escape := true;
        } else if c == stringChar {
          inString := false;
        }
      } else if IsQuote(c) {
        inString := true;
        stringChar := c;
      } else if c == '[' {
        depth := depth + 1;
      } else if c == ']' {
        depth := depth - 1;
        if depth == 0 {
          return Some(i);
        }
      }
      i := i + 1;
    }
    return None;
  }

  /** At the end of the array the scanner is outside every string. */
  lemma {:induction false} EndIsOutside(t: string, start: nat, i: nat, depth: int)
    requires start <= i <= |t| && ScanEnd(t, i, ScanMode(t, start, i), depth).Some?
    ensures ScanMode(t, start, ScanEnd(t, i, ScanMode(t, start, i), depth).value) == Outside
    decreases |t| - i
  {
    var mode := ScanMode(t, start, i);
    if !(mode == Outside && t[i] == ']' && depth - 1 == 0) {
      assert ScanMode(t, start, i + 1) == StepMode(mode, t[i]);
      EndIsOutside(t, start, i + 1, StepDepth(mode, depth, t[i]));
    }
  }

  /** A part that begins where the scan is outside strings is scanned alone as it is in the text. */
  lemma {:induction false} ModeOfPart(t: string, start: nat, lo: nat, hi: nat, k: nat)
    requires start <= lo && lo + k <= hi <= |t| && ScanMode(t, start, lo) == Outside
    ensures ScanMode(t[lo..hi], 0, k) == ScanMode(t, start, lo + k)
    decreases k
  {
    if k > 0 { ModeOfPart(t, start, lo, hi, k - 1); }
  }

  // ----- scanning over printed text -----

  /** Neither quotes nor brackets. */
  ghost predicate Plain(x: string) {
    forall k :: 0 <= k < |x| ==> !IsQuote(x[k]) && x[k] != '[' && x[k] != ']'
  }

  lemma {:induction false} ScanPlain(t: string, i: nat, x: string, depth: int)
    requires At(t, i, x) && Plain(x)
    ensures ScanEnd(t, i, Outside, depth) == ScanEnd(t, i + |x|, Outside, depth)
    decreases |x|
  {
    if x != [] {
      assert x == [x[0]] + x[1..];
      AtSplit(t, i, [x[0]], x[1..]);
      AtChar(t, i, x, 0);
      assert forall k :: 0 <= k < |x[1..]| ==> x[1..][k] == x[k + 1];
      ScanPlain(t, i + 1, x[1..], depth);
    }
  }
}
