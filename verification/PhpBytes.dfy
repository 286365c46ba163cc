/** The scan for the end of the array runs over the bytes of the file. In UTF-8 it finds the same place
    as a scan over its characters. */
module PhpBytes {
  import opened Names
  import opened Text
  import opened PhpScanner

  type Byte = b: int | 0 <= b < 256

  /** The UTF-8 form of a character. */
  function Utf8Char(c: char): (r: seq<Byte>)
    ensures r != []
    ensures c < '\U{0080}' ==> r == [c as int]
    ensures !(c < '\U{0080}') ==> forall i :: 0 <= i < |r| ==> r[i] >= 0x80
  {
    var n := c as int;
    if n < 0x80 then [n]
    else if n < 0x800 then [0xC0 + n / 0x40, 0x80 + n % 0x40]
    else if n < 0x10000 then [0xE0 + n / 0x1000, 0x80 + n / 0x40 % 0x40, 0x80 + n % 0x40]
    else [0xF0 + n / 0x40000, 0x80 + n / 0x1000 % 0x40, 0x80 + n / 0x40 % 0x40, 0x80 + n % 0x40]
  }

  /** What a byte carries beyond its mark. */
  function Carried(b: Byte, mark: int): int {
    (b as int) - mark
  }

  /** A byte that is not the first of its character. */
  ghost predicate Continues(b: Byte) {
    0 <= Carried(b, 0x80) < 0x40
  }

  lemma Places(n: nat)
    ensures n == n / 0x40 * 0x40 + n % 0x40
    ensures n / 0x40 == n / 0x1000 * 0x40 + n / 0x40 % 0x40
    ensures n / 0x1000 == n / 0x40000 * 0x40 + n / 0x1000 % 0x40
  {
  }

  /** The first byte tells the length, and the character can be read off the bytes. */
  lemma Utf8Decodes(c: char)
    ensures
      var n, r := c as int, Utf8Char(c);
      match |r|
      case 1 => 0 <= r[0] < 0x80 && n == Carried(r[0], 0)
      case 2 => 0xC0 <= r[0] < 0xE0 && Continues(r[1]) && n == Carried(r[0], 0xC0) * 0x40 + Carried(r[1], 0x80)
      case 3 =>
        && 0xE0 <= r[0] < 0xF0 && Continues(r[1]) && Continues(r[2])
        && n == (Carried(r[0], 0xE0) * 0x40 + Carried(r[1], 0x80)) * 0x40 + Carried(r[2], 0x80)
      case _ =>
        && |r| == 4 && 0xF0 <= r[0] < 0xF8 && Continues(r[1]) && Continues(r[2]) && Continues(r[3])
        && n == ((Carried(r[0], 0xF0) * 0x40 + Carried(r[1], 0x80)) * 0x40 + Carried(r[2], 0x80)) * 0x40 + Carried(r[3], 0x80)
  {
    Places(c as int);
  }

  /** It is the shortest form. */
  lemma Utf8Shortest(c: char)
    ensures |Utf8Char(c)| == if c < '\U{0080}' then 1 else if c < '\U{0800}' then 2 else if c < '\U{10000}' then 3 else 4
  {
  }

  function Utf8(s: string): seq<Byte> {
    if s == [] then [] else Utf8Char(s[0]) + Utf8(s[1..])
  }

  const BACKSLASH: Byte := '\\' as int
  const OPEN: Byte := '[' as int
  const CLOSE: Byte := ']' as int

  /** The scanner's mode with the quote as a byte. */
  datatype ByteMode = ByteMode(inString: bool, stringChar: Byte, escape: bool)

  predicate IsQuoteByte(c: Byte) {
    c == '\'' as int || c == '"' as int
  }

  function StepByteMode(m: ByteMode, c: Byte): ByteMode {
    if m.escape then m.(escape := false)
    else if m.inString then
      if c == BACKSLASH then m.(escape := true)
      else if c == m.stringChar then m.(inString := false)
      else m
    else if IsQuoteByte(c) then ByteMode(true, c, false)
    else m
  }

  predicate Quiet(m: ByteMode) {
    !m.inString && !m.escape
  }

  function StepByteDepth(m: ByteMode, depth: int, c: Byte): int {
    if !Quiet(m) then depth
    else if c == OPEN then depth + 1
    else if c == CLOSE then depth - 1
    else depth
  }

  /** Where the byte scan stops. */
  function ByteEnd(bs: seq<Byte>, i: nat, m: ByteMode, depth: int): Option<nat>
    decreases |bs| - i
  {
    if i >= |bs| then None
    else if Quiet(m) && bs[i] == CLOSE && depth - 1 == 0 then Some(i)
    else ByteEnd(bs, i + 1, StepByteMode(m, bs[i]), StepByteDepth(m, depth, bs[i]))
  }

  /** The scanner's loop over the bytes. */
  method ScanBytes(bs: seq<Byte>, start: nat) returns (arrayEnd: Option<nat>)
    requires start <= |bs|
    ensures arrayEnd == ByteEnd(bs, start, ByteMode(false, 0, false), 0)
  {
    var depth: int := 0;
    var inString, stringChar: Byte, escape := false, 0, false;
    var i := start;
    while i < |bs|
      invariant start <= i <= |bs|
      invariant ByteEnd(bs, start, ByteMode(false, 0, false), 0) == ByteEnd(bs, i, ByteMode(inString, stringChar, escape), depth)
    {
      var c := bs[i];
      if escape {
        escape := false;
      } else if inString {
        if c == BACKSLASH {
          escape := true;
        } else if c == stringChar {
          inString := false;
        }
      } else if IsQuoteByte(c) {
        inString := true;
        stringChar := c;
      } else if c == OPEN {
        depth := depth + 1;
      } else if c == CLOSE {
        depth := depth - 1;
        if depth == 0 { return Some(i); }
      }
      i := i + 1;
    }
    return None;
  }

  /** The byte scanner's mode that stands for a mode of the character scanner. */
  ghost predicate SameMode(m: ByteMode, mode: Mode) {
    match mode
    case Outside => Quiet(m)
    case InString(q) => IsQuote(q) && m == ByteMode(true, q as int, false)
    case Escaped(q) => IsQuote(q) && m == ByteMode(true, q as int, true)
  }

  /** The bytes of a character beyond ASCII take the scanner where any other ordinary character does. */
  lemma {:induction false} OrdinaryBytes(bs: seq<Byte>, i: nat, n: nat, m: ByteMode, depth: int)
    requires i + n <= |bs| && !m.escape && (m.inString ==> m.stringChar < 0x80)
    requires forall k :: i <= k < i + n ==> bs[k] >= 0x80
    ensures ByteEnd(bs, i, m, depth) == ByteEnd(bs, i + n, m, depth)
    decreases n
  {
    if n > 0 { OrdinaryBytes(bs, i + 1, n - 1, m, depth); }
  }

  /** One character and its bytes have the same effect on the two scanners. */
  lemma CharacterStep(bs: seq<Byte>, i: nat, c: char, m: ByteMode, mode: Mode, depth: int) returns (next: ByteMode)
    requires i + |Utf8Char(c)| <= |bs| && bs[i..i + |Utf8Char(c)|] == Utf8Char(c)
    requires SameMode(m, mode) && !(mode == Outside && c == ']' && depth - 1 == 0)
    ensures SameMode(next, StepMode(mode, c))
    ensures ByteEnd(bs, i, m, depth) == ByteEnd(bs, i + |Utf8Char(c)|, next, StepDepth(mode, depth, c))
  {
    var n := |Utf8Char(c)|;
    assert bs[i] == Utf8Char(c)[0];
    next := StepByteMode(m, bs[i]);
    if c < '\U{0080}' {
      assert bs[i] == c as int;
    } else {
      forall k | i <= k < i + n ensures bs[k] >= 0x80 {
        assert bs[k] == bs[i..i + n][k - i];
      }
      OrdinaryBytes(bs, i + 1, n - 1, next, depth);
    }
  }

  lemma {:induction false} Utf8Concat(s: string, t: string)
    ensures Utf8(s + t) == Utf8(s) + Utf8(t)
  {
    if s == [] {
      assert s + t == t;
      assert Utf8(s) + Utf8(t) == Utf8(t);
    } else {
      hide Utf8Char, Utf8;
      Utf8Concat(s[1..], t);
      assert (s + t)[0] == s[0] && (s + t)[1..] == s[1..] + t;
      Associate(Utf8Char(s[0]), Utf8(s[1..]), Utf8(t));
    }
  }

  /** The bytes of the first `i` characters, then those of character `i`. */
  lemma CharacterInBytes(t: string, i: nat)
    requires i < |t|
    ensures
      var bs, from, n := Utf8(t), Offset(t, i), |Utf8Char(t[i])|;
      && Offset(t, i + 1) == from + n
      && from + n <= |bs| && bs[from..from + n] == Utf8Char(t[i])
  {
    hide Utf8, Utf8Char;
    var a, c, b := t[..i], [t[i]], t[i + 1..];
    assert t == a + (c + b);
    Utf8Concat(a, c + b);
    Utf8Concat(c, b);
    assert t[..i + 1] == a + c;
    Utf8Concat(a, c);
    Utf8One(t[i]);
  }

  lemma Utf8One(c: char)
    ensures Utf8([c]) == Utf8Char(c)
  {
    assert [c][1..] == [];
  }

  /** How far into the bytes the first `i` characters reach. */
  ghost function Offset(t: string, i: nat): nat
    requires i <= |t|
  {
    |Utf8(t[..i])|
  }

  lemma ScanTurn(t: string, i: nat, mode: Mode, depth: int)
    requires i < |t|
    ensures
      if mode == Outside && t[i] == ']' && depth - 1 == 0 then ScanEnd(t, i, mode, depth) == Some(i)
      else ScanEnd(t, i, mode, depth) == ScanEnd(t, i + 1, StepMode(mode, t[i]), StepDepth(mode, depth, t[i]))
  {
  }

  lemma BothExhausted(t: string, m: ByteMode, mode: Mode, depth: int)
    ensures ScanEnd(t, |t|, mode, depth).None? && ByteEnd(Utf8(t), Offset(t, |t|), m, depth).None?
  {
    assert t[..|t|] == t;
  }

  /** The byte scan of the UTF-8 form stops at the bytes of the character at which the character scan
      stops, and finds no end when that finds none. */
  lemma {:induction false} BytesFindSameEnd(t: string, i: nat, m: ByteMode, mode: Mode, depth: int)
    requires i <= |t| && SameMode(m, mode)
    ensures
      var byChars, byBytes := ScanEnd(t, i, mode, depth), ByteEnd(Utf8(t), Offset(t, i), m, depth);
      && (byChars.Some? <==> byBytes.Some?)
      && (byChars.Some? ==> byBytes.value == Offset(t, byChars.value))
    decreases |t| - i
  {
    hide Utf8, Utf8Char, ByteEnd, ScanEnd, SameMode, Offset, StepMode, StepDepth;
    if i == |t| {
      BothExhausted(t, m, mode, depth);
    } else {
      ScanTurn(t, i, mode, depth);
      CharacterInBytes(t, i);
      if mode == Outside && t[i] == ']' && depth - 1 == 0 {
        StopsHere(Utf8(t), Offset(t, i), m, depth);
      } else {
        var next := CharacterStep(Utf8(t), Offset(t, i), t[i], m, mode, depth);
        BytesFindSameEnd(t, i + 1, next, StepMode(mode, t[i]), StepDepth(mode, depth, t[i]));
      }
    }
  }

  lemma StopsHere(bs: seq<Byte>, from: nat, m: ByteMode, depth: int)
    requires SameMode(m, Outside) && depth - 1 == 0
    requires from + |Utf8Char(']')| <= |bs| && bs[from..from + |Utf8Char(']')|] == Utf8Char(']')
    ensures ByteEnd(bs, from, m, depth) == Some(from)
  {
    assert bs[from..from + 1][0] == bs[from];
  }

  /** The scan of a whole file from the array's first bracket on. */
  lemma ByteScanAgrees(t: string, start: nat)
    requires start <= |t|
    ensures
      var byChars := ScanEnd(t, start, Outside, 0);
      var byBytes := ByteEnd(Utf8(t), Offset(t, start), ByteMode(false, 0, false), 0);
      && (byChars.Some? <==> byBytes.Some?)
      && (byChars.Some? ==> byBytes.value == Offset(t, byChars.value))
  {
    BytesFindSameEnd(t, start, ByteMode(false, 0, false), Outside, 0);
  }
}
