/** White space and trimming as ECMA-262 defines them. */
module Texts {
  /** White space as ECMA-262 counts it for `\s` and `trim`. */
  predicate IsSpace(c: char) {
    var n := c as int;
    9 <= n <= 13 || n == 32 || n == 0xA0 || n == 0x1680 || 0x2000 <= n <= 0x200A
    || n == 0x2028 || n == 0x2029 || n == 0x202F || n == 0x205F || n == 0x3000 || n == 0xFEFF
  }

  /** The line terminators, the tabs, and the space separators of Unicode, and no other character. */
  lemma SpacesAre(c: char)
    ensures IsSpace(c) <==> (c as int) in {
      0x9, 0xA, 0xB, 0xC, 0xD, 0x20, 0xA0, 0x1680, 0x2000, 0x2001, 0x2002, 0x2003, 0x2004, 0x2005, 0x2006,
      0x2007, 0x2008, 0x2009, 0x200A, 0x2028, 0x2029, 0x202F, 0x205F, 0x3000, 0xFEFF}
  {
  }

  predicate IsBlank(s: string) {
    forall c :: c in s ==> IsSpace(c)
  }

  function DropSpaces(s: string): (r: string)
    ensures |r| <= |s|
  {
    if s == "" || !IsSpace(s[0]) then s else DropSpaces(s[1..])
  }

  function TrimEnd(s: string): string {
    if s != "" && IsSpace(s[|s| - 1]) then TrimEnd(s[..|s| - 1]) else s
  }

  function Trim(s: string): string {
    TrimEnd(DropSpaces(s))
  }

  lemma {:induction false} DroppedStartsWithInk(s: string)
    ensures IsBlank(s) ==> DropSpaces(s) == ""
    ensures !IsBlank(s) ==> DropSpaces(s) != "" && !IsSpace(DropSpaces(s)[0])
  {
    if s == "" || !IsSpace(s[0]) {
    } else {
      DroppedStartsWithInk(s[1..]);
      assert s == [s[0]] + s[1..];
    }
  }

  lemma {:induction false} TrimEndKeepsInk(s: string)
    requires s != "" && !IsSpace(s[0])
    ensures TrimEnd(s) != ""
  {
    if !IsSpace(s[|s| - 1]) {
    } else {
      TrimEndKeepsInk(s[..|s| - 1]);
    }
  }

  /** Trimming leaves nothing exactly when there is only white space. */
  lemma TrimIsEmptyIffBlank(s: string)
    ensures Trim(s) == "" <==> IsBlank(s)
  {
    DroppedStartsWithInk(s);
    if !IsBlank(s) {
      TrimEndKeepsInk(DropSpaces(s));
    }
  }
}
