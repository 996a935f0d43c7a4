/**
 * Models of the JavaScript built-ins the search widget relies on:
 * String.prototype.toLowerCase (ASCII letters only), String.prototype.trim,
 * String.prototype.includes, and the remainder operator `%` on integers.
 */
module JsBuiltins {

  /** The WhiteSpace and LineTerminator code points of ECMAScript, which `trim` removes. */
  predicate IsSpace(c: char) {
    var x := c as int;
    x == 0x09 || x == 0x0A || x == 0x0B || x == 0x0C || x == 0x0D || x == 0x20
    || x == 0xA0 || x == 0x1680 || (0x2000 <= x <= 0x200A) || x == 0x2028
    || x == 0x2029 || x == 0x202F || x == 0x205F || x == 0x3000 || x == 0xFEFF
  }

  predicate AllSpace(s: string) {
    forall k :: 0 <= k < |s| ==> IsSpace(s[k])
  }

  predicate IsUpper(c: char) {
    'A' <= c <= 'Z'
  }

  /** A string with no ASCII upper-case letter. */
  predicate IsLowerCase(s: string) {
    forall k :: 0 <= k < |s| ==> !IsUpper(s[k])
  }

  function LowerChar(c: char): char {
    if IsUpper(c) then (c as int + 32) as char else c
  }

  /** `s.toLowerCase()`, restricted to the ASCII letters. */
  function Lower(s: string): string {
    if s == [] then [] else [LowerChar(s[0])] + Lower(s[1..])
  }

  /** Lower-casing keeps the length and maps every character on its own. */
  lemma {:induction false} LowerSpec(s: string)
    ensures |Lower(s)| == |s|
    ensures forall k :: 0 <= k < |s| ==> Lower(s)[k] == LowerChar(s[k]) && !IsUpper(Lower(s)[k])
  {
    if s != [] {
      LowerSpec(s[1..]);
    }
  }

  /** Drops the leading white space. */
  function TrimStart(s: string): string
    decreases |s|
  {
    if s != [] && IsSpace(s[0]) then TrimStart(s[1..]) else s
  }

  /** Drops the trailing white space. */
  function TrimEnd(s: string): string
    decreases |s|
  {
    if s != [] && IsSpace(s[|s| - 1]) then TrimEnd(s[..|s| - 1]) else s
  }

  /** `s.trim()`. */
  function Trim(s: string): string {
    TrimEnd(TrimStart(s))
  }

  /** `TrimStart` removes a prefix of white space, and no more. */
  lemma {:induction false} TrimStartSpec(s: string)
    ensures var r := TrimStart(s);
      && |r| <= |s| && r == s[|s| - |r|..]
      && AllSpace(s[..|s| - |r|])
      && (r == [] || !IsSpace(r[0]))
    decreases |s|
  {
    if s != [] && IsSpace(s[0]) {
      TrimStartSpec(s[1..]);
      var r := TrimStart(s);
      assert s[..|s| - |r|] == [s[0]] + s[1..][..|s| - 1 - |r|];
    }
  }

  /** `TrimEnd` removes a suffix of white space, and no more. */
  lemma {:induction false} TrimEndSpec(s: string)
    ensures var r := TrimEnd(s);
      && |r| <= |s| && r == s[..|r|]
      && AllSpace(s[|r|..])
      && (r == [] || !IsSpace(r[|r| - 1]))
    decreases |s|
  {
    if s != [] && IsSpace(s[|s| - 1]) {
      TrimEndSpec(s[..|s| - 1]);
      var r := TrimEnd(s);
      assert s[|r|..] == s[..|s| - 1][|r|..] + [s[|s| - 1]];
    }
  }

  /**
   * `trim` leaves the infix of `s` between a prefix and a suffix of white space,
   * and that infix neither starts nor ends with white space.
   */
  lemma TrimSpec(s: string)
    ensures var r := Trim(s); var i := |s| - |TrimStart(s)|;
      && 0 <= i && i + |r| <= |s| && r == s[i..i + |r|]
      && AllSpace(s[..i]) && AllSpace(s[i + |r|..])
      && (r == [] || (!IsSpace(r[0]) && !IsSpace(r[|r| - 1])))
  {
    var t := TrimStart(s);
    var r := TrimEnd(t);
    var i := |s| - |t|;
    TrimStartSpec(s);
    TrimEndSpec(t);
    assert t == s[i..];
    assert r == s[i..i + |r|] by {
      assert t[..|r|] == s[i..i + |r|];
    }
    assert AllSpace(s[i + |r|..]) by {
      assert t[|r|..] == s[i + |r|..];
    }
    assert r != [] ==> r[0] == t[0];
  }

  /** Trimming twice is trimming once. */
  lemma TrimIdempotent(s: string)
    ensures Trim(Trim(s)) == Trim(s)
  {
    TrimSpec(s);
  }

  /** `pat` occurs in `text` starting at position `i`. */
  predicate OccursAt(text: string, pat: string, i: nat) {
    i + |pat| <= |text| && text[i..i + |pat|] == pat
  }

  /** `pat` occurs somewhere in `text`. */
  ghost predicate OccursIn(text: string, pat: string) {
    exists i: nat :: OccursAt(text, pat, i)
  }

  /** `text.includes(pat)`: the empty pattern occurs in every text. */
  function Contains(text: string, pat: string): bool
    decreases |text|
  {
    if |pat| > |text| then false
    else if text[..|pat|] == pat then true
    else Contains(text[1..], pat)
  }

  /** `includes` answers whether the pattern occurs at some position of the text. */
  lemma {:induction false} ContainsIff(text: string, pat: string)
    ensures Contains(text, pat) <==> OccursIn(text, pat)
    decreases |text|
  {
    if |pat| > |text| {
      assert forall i: nat :: !OccursAt(text, pat, i);
    } else if text[..|pat|] == pat {
      assert OccursAt(text, pat, 0);
    } else {
      ContainsIff(text[1..], pat);
      forall i: nat ensures OccursAt(text[1..], pat, i) <==> OccursAt(text, pat, i + 1) {
        if i + |pat| <= |text[1..]| {
          assert text[1..][i..i + |pat|] == text[i + 1..i + 1 + |pat|];
        }
      }
      if j: nat :| OccursAt(text, pat, j) {
        assert j != 0;
        assert OccursAt(text[1..], pat, j - 1);
      }
    }
  }

  /** A text holding the pattern holds the pattern's first character. */
  lemma ContainsFirstChar(text: string, pat: string)
    requires pat != [] && Contains(text, pat)
    ensures pat[0] in text
  {
    ContainsIff(text, pat);
    var p: nat :| OccursAt(text, pat, p);
    assert text[p] == text[p..p + |pat|][0];
  }

  /**
   * `a % b` on numbers holding integers, for a positive divisor: the remainder
   * takes the sign of the dividend (truncating division), unlike Dafny's `%`.
   * A zero result of a negative dividend is JavaScript's -0, modelled as 0.
   */
  function Rem(a: int, b: int): int
    requires b > 0
  {
    if a >= 0 then a % b else -((-a) % b)
  }

  /** The remainder has the sign of the dividend, is smaller than the divisor in size, and differs from the dividend by a multiple of the divisor. */
  lemma RemSpec(a: int, b: int)
    requires b > 0
    ensures var r := Rem(a, b);
      && (a >= 0 ==> 0 <= r < b)
      && (a < 0 ==> -b < r <= 0)
      && (a - r) % b == 0
  {
    if a >= 0 {
      assert a == b * (a / b) + a % b;
      ModUnique(a - a % b, b, a / b, 0);
    } else {
      var m := (-a) % b;
      assert -a == b * ((-a) / b) + m;
      ModUnique(a + m, b, -((-a) / b), 0);
    }
  }

  /** Euclidean division is unique: a quotient and remainder in range are Dafny's `/` and `%`. */
  lemma ModUnique(a: int, b: int, q: int, r: int)
    requires b > 0 && 0 <= r < b && a == b * q + r
    ensures a / b == q && a % b == r
  {
    var d := q - a / b;
    assert a == b * (a / b) + a % b;
    assert b * d == b * q - b * (a / b);
    assert b * d == a % b - r;
    MulSign(b, d);
  }

  /** A positive number times a non-zero integer is at least that number in size. */
  lemma MulSign(b: int, d: int)
    requires b > 0
    ensures d >= 1 ==> b * d >= b
    ensures d <= -1 ==> b * d <= -b
  {
    if d >= 1 {
      MulAtLeast(b, d);
    } else if d <= -1 {
      MulAtLeast(b, -d);
      assert b * (-d) == -(b * d);
    }
  }

  lemma MulAtLeast(b: nat, d: nat)
    requires d >= 1
    ensures b * d >= b
  {
    assert b * d == b * (d - 1) + b;
  }
}
