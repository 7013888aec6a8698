/** Character-level helpers behind `ToLower()`, `Trim()` and the `Regex.IsMatch` calls. */
module Text {

  /** Lower-cases an ASCII capital letter and leaves every other character as it is. */
  function LowerChar(c: char): char
  {
    if 'A' <= c <= 'Z' then (c as int + 32) as char else c
  }

  /** `s.ToLower()` restricted to ASCII letters. */
  function Lower(s: string): (r: string)
    ensures |r| == |s|
    ensures forall i :: 0 <= i < |s| ==> r[i] == LowerChar(s[i])
  {
    if s == [] then [] else [LowerChar(s[0])] + Lower(s[1..])
  }

  /** `Regex.IsMatch(s)` for the character class `[lo-hi]`: scans `s` from the left. */
  function ContainsCharIn(s: string, lo: char, hi: char): (r: bool)
    ensures r <==> exists i :: 0 <= i < |s| && lo <= s[i] <= hi
  {
    if s == [] then false
    else if lo <= s[0] <= hi then true
    else
      var rest := ContainsCharIn(s[1..], lo, hi);
      assert rest ==> exists i :: 0 <= i < |s| && lo <= s[i] <= hi by {
        if rest {
          var j :| 0 <= j < |s[1..]| && lo <= s[1..][j] <= hi;
          assert lo <= s[j + 1] <= hi;
        }
      }
      assert (exists i :: 0 <= i < |s| && lo <= s[i] <= hi) ==> rest by {
        if exists i :: 0 <= i < |s| && lo <= s[i] <= hi {
          var i :| 0 <= i < |s| && lo <= s[i] <= hi;
          assert i != 0 && lo <= s[1..][i - 1] <= hi;
        }
      }
      rest
  }

  /** `char.IsWhiteSpace`: the Unicode space, line and paragraph separators,
      U+0009 to U+000D and U+0085. */
  predicate IsWhiteSpace(c: char)
  {
    || ('\U{9}' <= c <= '\U{D}') || c == '\U{20}' || c == '\U{85}' || c == '\U{A0}'
    || c == '\U{1680}' || ('\U{2000}' <= c <= '\U{200A}') || c == '\U{2028}' || c == '\U{2029}'
    || c == '\U{202F}' || c == '\U{205F}' || c == '\U{3000}'
  }

  /** `s.Trim().Length == 0`: every character of `s` is white space (true of ""). */
  function IsBlank(s: string): (r: bool)
    ensures r <==> forall i :: 0 <= i < |s| ==> IsWhiteSpace(s[i])
  {
    if s == [] then true
    else if !IsWhiteSpace(s[0]) then false
    else
      var rest := IsBlank(s[1..]);
      assert rest ==> forall i :: 0 <= i < |s| ==> IsWhiteSpace(s[i]) by {
        if rest {
          forall i | 0 <= i < |s| ensures IsWhiteSpace(s[i]) {
            if i > 0 { assert s[i] == s[1..][i - 1]; }
          }
        }
      }
      rest
  }
}
