/**
  The string helpers the index applies to entry text: `string.IsNullOrWhiteSpace`,
  `string.Trim` and `string.ToLower`, as .NET defines the first two. Case folding
  is modelled on ASCII letters only.
 */
module Text {
  import opened Wrappers

  /** `char.IsWhiteSpace`: the Unicode space, line and paragraph separators,
      U+0009 to U+000D and U+0085. */
  predicate IsWhiteSpace(c: char)
  {
    var n := c as int;
    (0x09 <= n <= 0x0D) || n == 0x20 || n == 0x85 || n == 0xA0 || n == 0x1680
    || (0x2000 <= n <= 0x200A) || n == 0x2028 || n == 0x2029 || n == 0x202F
    || n == 0x205F || n == 0x3000
  }

  predicate AllWhiteSpace(s: string)
  {
    forall i :: 0 <= i < |s| ==> IsWhiteSpace(s[i])
  }

  /** `string.IsNullOrWhiteSpace`. */
  predicate IsNullOrWhiteSpace(s: Option<string>)
  {
    s.None? || AllWhiteSpace(s.value)
  }

  function TrimStart(s: string): string
  {
    if s != [] && IsWhiteSpace(s[0]) then TrimStart(s[1..]) else s
  }

  function TrimEnd(s: string): string
  {
    if s != [] && IsWhiteSpace(s[|s| - 1]) then TrimEnd(s[..|s| - 1]) else s
  }

  /** `string.Trim()`: drops leading and trailing white space. */
  function Trim(s: string): string
  {
    TrimEnd(TrimStart(s))
  }

  /** Neither end of `s` is white space. */
  predicate Trimmed(s: string)
  {
    s == [] || (!IsWhiteSpace(s[0]) && !IsWhiteSpace(s[|s| - 1]))
  }

  function LowerChar(c: char): char
  {
    if 'A' <= c <= 'Z' then (c as int + 32) as char else c
  }

  /** `string.ToLower()`, on ASCII letters. */
  function ToLower(s: string): string
  {
    seq(|s|, i requires 0 <= i < |s| => LowerChar(s[i]))
  }

  /** The text under which an entry is stored: trimmed and lower-cased only in
      case-insensitive mode (AutoCompleteTrieSearch.cs:215-218). */
  function NormalizeText(s: string, ignoreCase: bool): string
  {
    if ignoreCase then ToLower(Trim(s)) else s
  }

  lemma {:induction false} TrimStartShape(s: string) returns (i: nat)
    ensures i <= |s| && TrimStart(s) == s[i..]
    ensures AllWhiteSpace(s[..i])
    ensures TrimStart(s) != [] ==> !IsWhiteSpace(TrimStart(s)[0])
    decreases |s|
  {
    if s != [] && IsWhiteSpace(s[0]) {
      var k := TrimStartShape(s[1..]);
      i := k + 1;
      assert s[1..][k..] == s[i..];
      assert s[..i] == [s[0]] + s[1..][..k];
    } else {
      i := 0;
    }
  }

  lemma {:induction false} TrimEndShape(s: string) returns (j: nat)
    ensures j <= |s| && TrimEnd(s) == s[..j]
    ensures AllWhiteSpace(s[j..])
    ensures TrimEnd(s) != [] ==> !IsWhiteSpace(TrimEnd(s)[|TrimEnd(s)| - 1])
    decreases |s|
  {
    if s != [] && IsWhiteSpace(s[|s| - 1]) {
      var t := s[..|s| - 1];
      j := TrimEndShape(t);
      assert t[..j] == s[..j];
      assert s[j..] == t[j..] + [s[|s| - 1]];
    } else {
      j := |s|;
    }
  }

  /** Trim removes white space from the two ends and nothing else: the result
      is a slice of the input, everything cut away is white space, and neither
      end of the result is white space. */
  lemma TrimShape(s: string) returns (i: nat, j: nat)
    ensures i <= j <= |s| && Trim(s) == s[i..j]
    ensures AllWhiteSpace(s[..i]) && AllWhiteSpace(s[j..])
    ensures Trimmed(Trim(s))
  {
    i := TrimStartShape(s);
    var t := s[i..];
    var k := TrimEndShape(t);
    j := i + k;
    assert t[..k] == s[i..j];
    assert t[k..] == s[j..];
    if Trim(s) != [] {
      assert Trim(s)[0] == TrimStart(s)[0];
    }
  }

  /** Trimming leaves nothing exactly when the text is all white space. */
  lemma TrimEmptyIff(s: string)
    ensures Trim(s) == [] <==> AllWhiteSpace(s)
  {
    var i, j := TrimShape(s);
    if Trim(s) == [] {
      assert i == j;
      forall k | 0 <= k < |s| ensures IsWhiteSpace(s[k]) {
        if k < i { assert s[k] == s[..i][k]; } else { assert s[k] == s[j..][k - j]; }
      }
    } else {
      assert Trim(s)[0] == s[i];
    }
  }

  /** A text whose ends are not white space is left alone by Trim. */
  lemma TrimmedFixed(s: string)
    requires Trimmed(s)
    ensures Trim(s) == s
  {
  }

  /** Lower-casing keeps the length and where the white space is. */
  lemma ToLowerShape(s: string)
    ensures |ToLower(s)| == |s|
    ensures forall i :: 0 <= i < |s| ==> (IsWhiteSpace(ToLower(s)[i]) <==> IsWhiteSpace(s[i]))
    ensures ToLower(ToLower(s)) == ToLower(s)
  {
  }

  /** Normalising a text that is not blank never makes it blank, so the
      NodeValue built from it cannot throw. */
  lemma NormalizeKeepsContent(s: string, ignoreCase: bool)
    requires !AllWhiteSpace(s)
    ensures !AllWhiteSpace(NormalizeText(s, ignoreCase))
    ensures Trimmed(NormalizeText(s, ignoreCase)) || !ignoreCase
  {
    if ignoreCase {
      var t := Trim(s);
      TrimEmptyIff(s);
      var _, _ := TrimShape(s);
      ToLowerShape(t);
      assert !IsWhiteSpace(ToLower(t)[0]);
    }
  }

  /** Normalisation is idempotent: a stored key normalises to itself. */
  lemma NormalizeIdempotent(s: string, ignoreCase: bool)
    ensures NormalizeText(NormalizeText(s, ignoreCase), ignoreCase) == NormalizeText(s, ignoreCase)
  {
    if ignoreCase {
      var t := Trim(s);
      var _, _ := TrimShape(s);
      ToLowerShape(t);
      var u := ToLower(t);
      assert Trimmed(u);
      TrimmedFixed(u);
    }
  }
}
