/** Python's view of single characters, and `str.strip`. */
module Strings {

  /** `str.isspace()`, which is also what `\s` matches and what `strip()` and `int()` strip. */
  predicate IsBlank(c: char) {
    var n := c as int;
    9 <= n <= 13 || 28 <= n <= 32 || n == 0x85 || n == 0xA0 || n == 0x1680 || 0x2000 <= n <= 0x200A
    || n == 0x2028 || n == 0x2029 || n == 0x202F || n == 0x205F || n == 0x3000
  }

  predicate IsAsciiDigit(c: char) { '0' <= c <= '9' }

  /** Where the last block of ten decimal digits of another script begins that does not lie behind `n`;
      as of Unicode 15. */
  function BlockBefore(n: int): int {
    if n < 0xAA50 then
      if n < 0x1040 then
        if n < 0x0BE6 then
          if n < 0x09E6 then
            if n < 0x06F0 then 0x0660 else if n < 0x07C0 then 0x06F0 else if n < 0x0966 then 0x07C0 else 0x0966
          else
            if n < 0x0A66 then 0x09E6 else if n < 0x0AE6 then 0x0A66 else if n < 0x0B66 then 0x0AE6 else 0x0B66
        else
          if n < 0x0DE6 then
            if n < 0x0C66 then 0x0BE6 else if n < 0x0CE6 then 0x0C66 else if n < 0x0D66 then 0x0CE6 else 0x0D66
          else
            if n < 0x0E50 then 0x0DE6 else if n < 0x0ED0 then 0x0E50 else if n < 0x0F20 then 0x0ED0 else 0x0F20
      else
        if n < 0x1B50 then
          if n < 0x1946 then
            if n < 0x1090 then 0x1040 else if n < 0x17E0 then 0x1090 else if n < 0x1810 then 0x17E0 else 0x1810
          else
            if n < 0x19D0 then 0x1946 else if n < 0x1A80 then 0x19D0 else if n < 0x1A90 then 0x1A80 else 0x1A90
        else
          if n < 0xA620 then
            if n < 0x1BB0 then 0x1B50 else if n < 0x1C40 then 0x1BB0 else if n < 0x1C50 then 0x1C40 else 0x1C50
          else
            if n < 0xA900 then
              if n < 0xA8D0 then 0xA620 else 0xA8D0
            else
              if n < 0xA9D0 then 0xA900 else if n < 0xA9F0 then 0xA9D0 else 0xA9F0
    else
      if n < 0x11C50 then
        if n < 0x111D0 then
          if n < 0x10D30 then
            if n < 0xABF0 then 0xAA50 else if n < 0xFF10 then 0xABF0 else if n < 0x104A0 then 0xFF10 else 0x104A0
          else
            if n < 0x11066 then 0x10D30 else if n < 0x110F0 then 0x11066 else if n < 0x11136 then 0x110F0 else 0x11136
        else
          if n < 0x11650 then
            if n < 0x112F0 then 0x111D0 else if n < 0x11450 then 0x112F0 else if n < 0x114D0 then 0x11450 else 0x114D0
          else
            if n < 0x11730 then
              if n < 0x116C0 then 0x11650 else 0x116C0
            else
              if n < 0x118E0 then 0x11730 else if n < 0x11950 then 0x118E0 else 0x11950
      else
        if n < 0x1D7D8 then
          if n < 0x16A60 then
            if n < 0x11D50 then 0x11C50 else if n < 0x11DA0 then 0x11D50 else if n < 0x11F50 then 0x11DA0 else 0x11F50
          else
            if n < 0x16AC0 then 0x16A60 else if n < 0x16B50 then 0x16AC0 else if n < 0x1D7CE then 0x16B50 else 0x1D7CE
        else
          if n < 0x1E140 then
            if n < 0x1D7E2 then 0x1D7D8 else if n < 0x1D7EC then 0x1D7E2 else if n < 0x1D7F6 then 0x1D7EC else 0x1D7F6
          else
            if n < 0x1E4F0 then
              if n < 0x1E2F0 then 0x1E140 else 0x1E2F0
            else
              if n < 0x1E950 then 0x1E4F0 else if n < 0x1FBF0 then 0x1E950 else 0x1FBF0
  }

  predicate IsOtherDigit(n: int) {
    BlockBefore(n) <= n < BlockBefore(n) + 10
  }

  /** A decimal digit of any script: what `\d` matches and `int()` and `float()` read. */
  predicate IsDigit(c: char) {
    IsAsciiDigit(c) || IsOtherDigit(c as int)
  }

  function DigitValue(c: char): (d: int)
    requires IsDigit(c)
    ensures 0 <= d < 10
  {
    if IsAsciiDigit(c) then c as int - '0' as int else c as int - BlockBefore(c as int)
  }

  function StripLeft(s: string): string {
    if s != [] && IsBlank(s[0]) then StripLeft(s[1..]) else s
  }

  function StripRight(s: string): string {
    if s != [] && IsBlank(s[|s| - 1]) then StripRight(s[..|s| - 1]) else s
  }

  /** `s.strip()`. */
  function Strip(s: string): string { StripRight(StripLeft(s)) }

  predicate AllBlank(s: string) {
    forall k :: 0 <= k < |s| ==> IsBlank(s[k])
  }

  lemma {:induction false} LeftIsStripped(s: string) returns (left: string)
    ensures AllBlank(left) && s == left + StripLeft(s)
    ensures StripLeft(s) != "" ==> !IsBlank(StripLeft(s)[0])
  {
    left := "";
    if s != "" && IsBlank(s[0]) {
      var rest := LeftIsStripped(s[1..]);
      left := [s[0]] + rest;
      assert s == [s[0]] + s[1..];
    }
  }

  lemma {:induction false} RightIsStripped(s: string) returns (right: string)
    ensures AllBlank(right) && s == StripRight(s) + right
    ensures StripRight(s) != "" ==> !IsBlank(StripRight(s)[|StripRight(s)| - 1])
  {
    right := "";
    if s != "" && IsBlank(s[|s| - 1]) {
      var init := s[..|s| - 1];
      var rest := RightIsStripped(init);
      right := rest + [s[|s| - 1]];
      assert s == init + [s[|s| - 1]];
    }
  }

  /** Stripping takes blanks off both ends, and all of them. */
  lemma {:induction false} StripTakesTheBlanks(s: string) returns (left: string, right: string)
    ensures AllBlank(left) && AllBlank(right) && s == left + Strip(s) + right
    ensures Strip(s) != "" ==> !IsBlank(Strip(s)[0]) && !IsBlank(Strip(s)[|Strip(s)| - 1])
  {
    left := LeftIsStripped(s);
    right := RightIsStripped(StripLeft(s));
    hide IsBlank;
    assert Strip(s) != "" ==> Strip(s)[0] == StripLeft(s)[0];
  }
}
