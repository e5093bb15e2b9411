/** The two pieces of java.lang behaviour on text that the service relies on:
    String.trim (used by the blank-name checks) and Long.toString (used in the
    messages of the persistence adapter's exceptions). */
module JavaStrings {

  /** String.trim removes every leading and trailing character whose code is at most U+0020. */
  predicate Trimmable(c: char) {
    c <= ' '
  }

  /** A string whose trimmed form is empty: every character is trimmable. */
  predicate IsBlank(s: string) {
    forall i :: 0 <= i < |s| ==> Trimmable(s[i])
  }

  /** The leading trimmable characters removed, and only those. */
  function TrimStart(s: string): (r: string)
    ensures |r| <= |s| && r == s[|s| - |r|..]
    ensures r == [] || !Trimmable(r[0])
    ensures forall i :: 0 <= i < |s| - |r| ==> Trimmable(s[i])
  {
    if s == [] || !Trimmable(s[0]) then s else TrimStart(s[1..])
  }

  /** The trailing trimmable characters removed, and only those. */
  function TrimEnd(s: string): (r: string)
    ensures |r| <= |s| && r == s[..|r|]
    ensures r == [] || !Trimmable(r[|r| - 1])
    ensures forall i :: |r| <= i < |s| ==> Trimmable(s[i])
  {
    if s == [] || !Trimmable(s[|s| - 1]) then s else TrimEnd(s[..|s| - 1])
  }

  /** String.trim. */
  function Trim(s: string): string {
    TrimEnd(TrimStart(s))
  }

  /** A non-empty string is blank when its first character is trimmable and the rest is blank. */
  lemma {:induction false} BlankUncons(s: string)
    requires s != []
    ensures IsBlank(s) <==> Trimmable(s[0]) && IsBlank(s[1..])
  {
    var t := s[1..];
    if Trimmable(s[0]) && IsBlank(t) {
      forall i | 0 <= i < |s| ensures Trimmable(s[i]) {
        if i > 0 { assert s[i] == t[i - 1]; }
      }
    }
    if IsBlank(s) {
      forall i | 0 <= i < |t| ensures Trimmable(t[i]) {
        assert t[i] == s[i + 1];
      }
    }
  }

  lemma {:induction false} TrimStartEmptyIff(s: string)
    ensures TrimStart(s) == [] <==> IsBlank(s)
  {
    if s == [] {
    } else if Trimmable(s[0]) {
      assert TrimStart(s) == TrimStart(s[1..]);
      TrimStartEmptyIff(s[1..]);
      BlankUncons(s);
    } else {
      assert TrimStart(s) == s;
      assert !IsBlank(s);
    }
  }

  /** `s.trim().isEmpty()` holds exactly when every character of s is trimmable. */
  lemma {:induction false} TrimEmptyIff(s: string)
    ensures Trim(s) == [] <==> IsBlank(s)
  {
    TrimStartEmptyIff(s);
    var t := TrimStart(s);
    assert TrimEnd(t) == [] <==> t == [] by {
      if t != [] && TrimEnd(t) == [] {
        assert !Trimmable(t[0]);
        TrimEndKeepsFirst(t);
      }
    }
  }

  lemma {:induction false} TrimEndKeepsFirst(t: string)
    requires t != [] && !Trimmable(t[0])
    ensures TrimEnd(t) != [] && TrimEnd(t)[0] == t[0]
  {
    if Trimmable(t[|t| - 1]) {
      TrimEndKeepsFirst(t[..|t| - 1]);
    }
  }

  function DigitChar(d: nat): char
    requires d < 10
  {
    "0123456789"[d]
  }

  function NatToString(n: nat): (r: string)
    ensures |r| >= 1
    decreases n
  {
    if n < 10 then [DigitChar(n)] else NatToString(n / 10) + [DigitChar(n % 10)]
  }

  /** Long.toString: decimal digits, with a leading '-' for a negative value. */
  function LongToString(n: int): string {
    if n < 0 then "-" + NatToString(-n) else NatToString(n)
  }
}
