/** Models of the Python string operations the service relies on:
    `str.strip()`, `str.lower()`, `str.isdigit()`, `str.startswith()` and
    the substring test `needle in haystack`, on ASCII text. */
module Text {

  /** The ASCII characters `str.isspace()` accepts and `str.strip()`
      removes: tab to carriage return, the separators U+001C to U+001F,
      and space. */
  predicate IsSpace(c: char) {
    ('\t' <= c <= '\r') || ('\U{1C}' <= c <= ' ')
  }

  predicate AllSpace(s: string) {
    forall i | 0 <= i < |s| :: IsSpace(s[i])
  }

  predicate IsDigitChar(c: char) {
    '0' <= c <= '9'
  }

  /** Removes leading whitespace. */
  function TrimLeft(s: string): (r: string)
    ensures |r| <= |s| && r == s[|s| - |r|..]
    ensures r == [] <==> AllSpace(s)
    ensures r != [] ==> !IsSpace(r[0])
  {
    if s != [] && IsSpace(s[0]) then TrimLeft(s[1..]) else s
  }

  /** Removes trailing whitespace. */
  function TrimRight(s: string): (r: string)
    ensures |r| <= |s| && r == s[..|r|]
    ensures r == [] <==> AllSpace(s)
    ensures r != [] ==> !IsSpace(r[|r| - 1])
  {
    if s != [] && IsSpace(s[|s| - 1]) then TrimRight(s[..|s| - 1]) else s
  }

  /** How many whitespace characters `s` starts with. */
  function LeadingSpace(s: string): nat {
    |s| - |TrimLeft(s)|
  }

  /** `s.strip()`: the largest slice of `s` that neither starts nor ends
      with whitespace; empty exactly when `s` is all whitespace. */
  function Strip(s: string): (r: string)
    ensures |r| <= |s|
    ensures LeadingSpace(s) + |r| <= |s| && r == s[LeadingSpace(s)..][..|r|]
    ensures forall k | 0 <= k < LeadingSpace(s) :: IsSpace(s[k])
    ensures forall k | LeadingSpace(s) + |r| <= k < |s| :: IsSpace(s[k])
    ensures r == [] <==> AllSpace(s)
    ensures r != [] ==> !IsSpace(r[0]) && !IsSpace(r[|r| - 1])
  {
    TrimBoth(s, TrimLeft(s), TrimRight(TrimLeft(s)));
    TrimBothSlice(s, TrimLeft(s), TrimRight(TrimLeft(s)));
    TrimRight(TrimLeft(s))
  }

  /** The facts `Strip` promises, about the two trims one after the other. */
  lemma {:induction false} TrimBoth(s: string, l: string, r: string)
    requires l == TrimLeft(s) && r == TrimRight(l)
    ensures r == [] <==> AllSpace(s)
    ensures r != [] ==> !IsSpace(r[0]) && !IsSpace(r[|r| - 1])
  {
    assert l != [] ==> !IsSpace(l[0]) && !AllSpace(l);
    assert r != [] ==> r[0] == l[0];
  }

  /** The two trims cut whitespace, and only whitespace, off the ends. */
  lemma {:induction false} TrimBothSlice(s: string, l: string, r: string)
    requires l == TrimLeft(s) && r == TrimRight(l)
    ensures LeadingSpace(s) + |r| <= |s| && r == s[LeadingSpace(s)..][..|r|]
    ensures forall k | 0 <= k < LeadingSpace(s) :: IsSpace(s[k])
    ensures forall k | LeadingSpace(s) + |r| <= k < |s| :: IsSpace(s[k])
  {
    TrimLeftDropsSpace(s);
    TrimRightDropsSpace(l);
    SpaceTailOfSuffix(s, |s| - |l|, |r|);
  }

  /** Whitespace at the end of the suffix `s[i..]` is whitespace at the
      end of `s`. */
  lemma SpaceTailOfSuffix(s: string, i: nat, j: nat)
    requires i + j <= |s|
    requires forall k | j <= k < |s[i..]| :: IsSpace(s[i..][k])
    ensures forall k | i + j <= k < |s| :: IsSpace(s[k])
  {
    forall k | i + j <= k < |s|
      ensures IsSpace(s[k])
    {
      assert s[k] == s[i..][k - i];
    }
  }

  /** What `TrimLeft` drops is whitespace. */
  lemma {:induction false} TrimLeftDropsSpace(s: string)
    ensures forall k | 0 <= k < |s| - |TrimLeft(s)| :: IsSpace(s[k])
  {
    if s != [] && IsSpace(s[0]) {
      TrimLeftDropsSpace(s[1..]);
      forall k | 1 <= k < |s| - |TrimLeft(s)|
        ensures IsSpace(s[k])
      {
        assert s[k] == s[1..][k - 1];
      }
    }
  }

  /** What `TrimRight` drops is whitespace. */
  lemma {:induction false} TrimRightDropsSpace(s: string)
    ensures forall k | |TrimRight(s)| <= k < |s| :: IsSpace(s[k])
  {
    if s != [] && IsSpace(s[|s| - 1]) {
      TrimRightDropsSpace(s[..|s| - 1]);
      forall k | |TrimRight(s)| <= k < |s| - 1
        ensures IsSpace(s[k])
      {
        assert s[k] == s[..|s| - 1][k];
      }
    }
  }

  function LowerChar(c: char): (d: char)
    ensures IsSpace(d) <==> IsSpace(c)
    ensures !('A' <= d <= 'Z')
  {
    if 'A' <= c <= 'Z' then (c as int + 32) as char else c
  }

  /** `s.lower()` on ASCII letters; every other character is kept. */
  function Lower(s: string): (r: string)
    ensures |r| == |s|
    ensures forall i | 0 <= i < |s| :: r[i] == LowerChar(s[i])
  {
    seq(|s|, i requires 0 <= i < |s| => LowerChar(s[i]))
  }

  /** Python's `s.isdigit()`: non-empty and every character a digit. */
  function IsDigitString(s: string): (b: bool)
    ensures b <==> s != [] && forall i | 0 <= i < |s| :: IsDigitChar(s[i])
  {
    |s| > 0 && IsDigitChar(s[0]) && (|s| == 1 || IsDigitString(s[1..]))
  }

  predicate StartsWith(s: string, prefix: string) {
    |prefix| <= |s| && s[..|prefix|] == prefix
  }

  /** Python's `needle in hay` for strings. */
  predicate Contains(hay: string, needle: string) {
    StartsWith(hay, needle) || (hay != [] && Contains(hay[1..], needle))
  }

  /** Lowering commutes with stripping, because lowering maps whitespace to
      whitespace and nothing else to whitespace. */
  lemma {:induction false} StripLowerCommute(s: string)
    ensures Strip(Lower(s)) == Lower(Strip(s))
  {
    TrimLeftLower(s);
    TrimRightLower(TrimLeft(s));
  }

  lemma {:induction false} TrimLeftLower(s: string)
    ensures TrimLeft(Lower(s)) == Lower(TrimLeft(s))
  {
    if s != [] && IsSpace(s[0]) {
      assert Lower(s)[1..] == Lower(s[1..]);
      TrimLeftLower(s[1..]);
    }
  }

  lemma {:induction false} TrimRightLower(s: string)
    ensures TrimRight(Lower(s)) == Lower(TrimRight(s))
  {
    if s != [] && IsSpace(s[|s| - 1]) {
      assert Lower(s)[..|s| - 1] == Lower(s[..|s| - 1]);
      TrimRightLower(s[..|s| - 1]);
    }
  }

  lemma LowerIdempotent(s: string)
    ensures Lower(Lower(s)) == Lower(s)
  {
  }

  /** Surrounding a string with spaces does not change what it strips to. */
  lemma {:induction false} StripPadded(s: string)
    ensures Strip(" " + s + " ") == Strip(s)
  {
    var padded := " " + s + " ";
    assert padded[0] == ' ' && padded[1..] == s + " ";
    assert TrimLeft(padded) == TrimLeft(s + " ");
    TrimLeftPadded(s);
    if TrimLeft(s) != [] {
      TrimRightPadded(TrimLeft(s));
    }
  }

  lemma {:induction false} TrimLeftPadded(s: string)
    ensures TrimLeft(s + " ") == (if TrimLeft(s) == [] then [] else TrimLeft(s) + " ")
  {
    if s == [] {
      assert IsSpace(" "[0]) && " "[1..] == [];
    } else {
      assert (s + " ")[0] == s[0] && (s + " ")[1..] == s[1..] + " ";
      if IsSpace(s[0]) {
        TrimLeftPadded(s[1..]);
      }
    }
  }

  lemma {:induction false} TrimRightPadded(s: string)
    ensures TrimRight(s + " ") == TrimRight(s)
  {
    assert (s + " ")[..|s|] == s;
  }
}
