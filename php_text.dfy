/** The character classes and string primitives of PHP and PCRE that the
    backend relies on: the `\s` class of a PCRE pattern, the default
    character list of `trim`, and `strtolower`. */
module PhpText {

  /** PCRE's `\s` (no `u` flag): space, tab, line feed, vertical tab,
      form feed and carriage return. */
  predicate IsPcreSpace(c: char) {
    c == ' ' || c == '\t' || c == '\n' || c == '\U{000B}' || c == '\U{000C}' || c == '\r'
  }

  /** The characters PHP's `trim` removes by default: space, tab, line
      feed, carriage return, NUL and vertical tab (not form feed). */
  predicate IsTrimmed(c: char) {
    c == ' ' || c == '\t' || c == '\n' || c == '\r' || c == '\U{0000}' || c == '\U{000B}'
  }

  predicate AllPcreSpace(s: string) {
    forall i :: 0 <= i < |s| ==> IsPcreSpace(s[i])
  }

  predicate AllTrimmed(s: string) {
    forall i :: 0 <= i < |s| ==> IsTrimmed(s[i])
  }

  /** Drops the leading run of `\s` characters, as a greedy `\s*` does. */
  function DropPcreSpaces(s: string): (r: string)
    ensures |r| <= |s| && r == s[|s| - |r|..]
    ensures AllPcreSpace(s[..|s| - |r|])
    ensures r == [] || !IsPcreSpace(r[0])
  {
    if s != [] && IsPcreSpace(s[0]) then DropPcreSpaces(s[1..]) else s
  }

  /** Drops the trailing run of `\s` characters. */
  function DropTrailingPcreSpaces(s: string): (r: string)
    ensures |r| <= |s| && r == s[..|r|]
    ensures AllPcreSpace(s[|r|..])
    ensures r == [] || !IsPcreSpace(r[|r| - 1])
  {
    if s != [] && IsPcreSpace(s[|s| - 1]) then DropTrailingPcreSpaces(s[..|s| - 1]) else s
  }

  function TrimLeft(s: string): (r: string)
    ensures |r| <= |s| && r == s[|s| - |r|..]
    ensures AllTrimmed(s[..|s| - |r|])
    ensures r == [] || !IsTrimmed(r[0])
  {
    if s != [] && IsTrimmed(s[0]) then TrimLeft(s[1..]) else s
  }

  function TrimRight(s: string): (r: string)
    ensures |r| <= |s| && r == s[..|r|]
    ensures AllTrimmed(s[|r|..])
    ensures r == [] || !IsTrimmed(r[|r| - 1])
  {
    if s != [] && IsTrimmed(s[|s| - 1]) then TrimRight(s[..|s| - 1]) else s
  }

  /** PHP's `trim($s)` with the default character list. */
  function Trim(s: string): string {
    TrimLeft(TrimRight(s))
  }

  /** `trim` leaves nothing exactly when every character is one it removes. */
  lemma TrimEmptyIffAllTrimmed(s: string)
    ensures Trim(s) == "" <==> AllTrimmed(s)
  {
    var r := TrimRight(s);
    if Trim(s) == "" {
      assert AllTrimmed(r[..|r| - |TrimLeft(r)|]);
      forall i | 0 <= i < |s| ensures IsTrimmed(s[i]) {
        if i < |r| {
          assert s[i] == r[..|r|][i];
        } else {
          assert s[i] == s[|r|..][i - |r|];
        }
      }
    }
  }

  /** A string that starts with a character `trim` keeps is not blank. */
  lemma TrimKeepsFirst(s: string)
    requires |s| > 0 && !IsTrimmed(s[0])
    ensures Trim(s) != ""
  {
    TrimEmptyIffAllTrimmed(s);
  }

  /** ASCII lower-casing of one character (from PHP 8.2 `strtolower` is
      locale-insensitive and touches only `A`-`Z`). */
  function LowerChar(c: char): (r: char)
    ensures 'A' <= c <= 'Z' ==> r as int == c as int + 32
    ensures !('A' <= c <= 'Z') ==> r == c
  {
    if 'A' <= c <= 'Z' then (c as int + 32) as char else c
  }

  function Lower(s: string): (r: string)
    ensures |r| == |s|
    ensures forall i :: 0 <= i < |s| ==> r[i] == LowerChar(s[i])
  {
    if s == [] then [] else [LowerChar(s[0])] + Lower(s[1..])
  }

  /** PHP's string form of an integer, as `strtolower` receives it when
      handed an int. */
  function IntText(n: int): (r: string)
    ensures r != []
  {
    if n < 0 then "-" + NatText(-n) else NatText(n)
  }

  function NatText(n: nat): (r: string)
    ensures r != []
    ensures forall i :: 0 <= i < |r| ==> '0' <= r[i] <= '9'
    decreases n
  {
    if n < 10 then [Digit(n)] else NatText(n / 10) + [Digit(n % 10)]
  }

  function Digit(d: nat): (c: char)
    requires d < 10
    ensures '0' <= c <= '9'
  {
    ('0' as int + d) as char
  }

  lemma {:induction false} TrimRightAppendTrimmed(u: string, w: string)
    requires AllTrimmed(w)
    ensures TrimRight(u + w) == TrimRight(u)
    decreases |w|
  {
    if w != [] {
      var w' := w[..|w| - 1];
      assert (u + w)[..|u + w| - 1] == u + w';
      TrimRightAppendTrimmed(u, w');
    } else {
      assert u + w == u;
    }
  }

  lemma {:induction false} DropTrailingAppendSpaces(u: string, w: string)
    requires AllPcreSpace(w)
    ensures DropTrailingPcreSpaces(u + w) == DropTrailingPcreSpaces(u)
    decreases |w|
  {
    if w != [] {
      var w' := w[..|w| - 1];
      assert (u + w)[..|u + w| - 1] == u + w';
      DropTrailingAppendSpaces(u, w');
    } else {
      assert u + w == u;
    }
  }

  lemma {:induction false} DropSpacesAppend(x: string, y: string)
    requires !AllPcreSpace(x)
    ensures DropPcreSpaces(x + y) == DropPcreSpaces(x) + y
    decreases |x|
  {
    if IsPcreSpace(x[0]) {
      assert (x + y)[1..] == x[1..] + y;
      assert !AllPcreSpace(x[1..]) by {
        var k :| 0 <= k < |x| && !IsPcreSpace(x[k]);
        assert x[1..][k - 1] == x[k];
      }
      DropSpacesAppend(x[1..], y);
    }
  }

  /** A text that is not all whitespace keeps its last character when its
      leading whitespace is dropped. */
  lemma {:induction false} DropSpacesKeepsLast(x: string)
    requires !AllPcreSpace(x)
    ensures var d := DropPcreSpaces(x); d != [] && d[|d| - 1] == x[|x| - 1]
    decreases |x|
  {
    if IsPcreSpace(x[0]) {
      assert !AllPcreSpace(x[1..]) by {
        var k :| 0 <= k < |x| && !IsPcreSpace(x[k]);
        assert x[1..][k - 1] == x[k];
      }
      DropSpacesKeepsLast(x[1..]);
    }
  }

  lemma {:induction false} SpaceFreePrefixSurvives(w: string, b: string)
    requires AllPcreSpace(w)
    requires b != [] && !IsPcreSpace(b[0])
    ensures DropPcreSpaces(w + b) == b
    decreases |w|
  {
    if w == [] {
      assert w + b == b;
    } else {
      assert (w + b)[1..] == w[1..] + b;
      SpaceFreePrefixSurvives(w[1..], b);
    }
  }
}
