/** Python's notion of white space, for the two places that strip what people type. */
module Text {

  predicate IsSpace(c: char) {
    var n := c as int;
    || 0x09 <= n <= 0x0D || 0x1C <= n <= 0x20 || n == 0x85 || n == 0xA0 || n == 0x1680
    || 0x2000 <= n <= 0x200A || n == 0x2028 || n == 0x2029 || n == 0x202F || n == 0x205F || n == 0x3000
  }

  /** `str.strip()`. */
  function Strip(s: string): (r: string)
    ensures r != "" ==> !IsSpace(r[0]) && !IsSpace(r[|r| - 1])
    ensures r == "" <==> forall i | 0 <= i < |s| :: IsSpace(s[i])
    decreases |s|
  {
    if s == "" then ""
    else if IsSpace(s[0]) then
      assert forall i | 1 <= i < |s| :: s[i] == s[1..][i - 1];
      Strip(s[1..])
    else if IsSpace(s[|s| - 1]) then
      assert s[..|s| - 1][0] == s[0];
      Strip(s[..|s| - 1])
    else s
  }

  predicate Blank(s: string) {
    Strip(s) == ""
  }

  /** What is left of `s` is its piece from `i` to `j`, with white space alone around it. */
  ghost predicate StripsTo(s: string, i: nat, j: nat) {
    i <= j <= |s| && Strip(s) == s[i..j] && forall k | 0 <= k < i || j <= k < |s| :: IsSpace(s[k])
  }

  lemma AfterSpace(s: string, i: nat, j: nat)
    requires s != "" && IsSpace(s[0]) && StripsTo(s[1..], i, j)
    ensures StripsTo(s, i + 1, j + 1)
  {
    hide IsSpace;
    assert s[1..][i..j] == s[i + 1..j + 1];
    forall k | 1 <= k < i + 1 || j + 1 <= k < |s| ensures IsSpace(s[k]) { assert s[k] == s[1..][k - 1]; }
  }

  lemma BeforeSpace(s: string, i: nat, j: nat)
    requires s != "" && !IsSpace(s[0]) && IsSpace(s[|s| - 1]) && StripsTo(s[..|s| - 1], i, j)
    ensures StripsTo(s, i, j)
  {
    hide IsSpace;
    var n := |s| - 1;
    assert s[..n][i..j] == s[i..j];
    forall k | 0 <= k < i || j <= k < n ensures IsSpace(s[k]) { assert s[k] == s[..n][k]; }
  }

  /** Stripping takes white space off the two ends and leaves everything between them. */
  lemma {:induction false} StripIsTheMiddle(s: string) returns (i: nat, j: nat)
    ensures i <= j <= |s| && Strip(s) == s[i..j]
    ensures forall k | 0 <= k < i || j <= k < |s| :: IsSpace(s[k])
    decreases |s|
  {
    hide IsSpace;
    i, j := 0, |s|;
    if s != "" && IsSpace(s[0]) {
      hide Strip;
      i, j := StripIsTheMiddle(s[1..]);
      AfterSpace(s, i, j);
      i, j := i + 1, j + 1;
    } else if s != "" && IsSpace(s[|s| - 1]) {
      hide Strip;
      i, j := StripIsTheMiddle(s[..|s| - 1]);
      BeforeSpace(s, i, j);
    }
  }

  /** The white space of the ASCII range: tab to carriage return, the four separators, and the
      space. */
  lemma AsciiSpaces(c: char)
    requires c as int < 128
    ensures IsSpace(c) <==> c in "\t\n\U{b}\U{c}\r\U{1c}\U{1d}\U{1e}\U{1f} "
  {
  }
}
